/**
 * The turn logic of the voice assistant: the reply cache in front of the
 * language model, the speaking guard around speech output, and the routing
 * of a transcribed utterance to shutdown, a canned reply or the model.
 * Each call runs to completion before the next one starts; the speech
 * thread that `speak` starts is the pending `speechTask`, run by
 * `RunSpeechTask` with the outcome of synthesis and playback.
 */
module Assistant {
  import opened Wrappers
  import opened Text
  import opened EasterEggs
  import opened Chat

  const ErrorReply: string := "System error. Unable to process request."
  const Farewell: string := "Shutting down. Goodbye."
  const ExitCommand: string := "exit"
  /** How many times one captured utterance is given to the recognizer. */
  const MaxAttempts: nat := 3

  /** What the streaming completion request gives: the delta contents of its chunks, or an exception. */
  datatype Completion = Streamed(deltas: seq<Option<string>>) | ProviderError

  /** What one call of the recognizer gives. */
  datatype Recognition =
    | Recognized(transcript: string)
    | Unintelligible  // the recognizer could not make out any words
    | RequestFailed   // any other exception, such as an unreachable service

  /** How the speech thread ends. */
  datatype Playback =
    | Played           // synthesis, writing the audio file and playback succeed
    | SynthesisFailed  // synthesis raises before the audio file is opened
    | WriteFailed      // writing the audio file raises
    | PlaybackFailed   // the player exits with an error after the reply was shown

  /** Where a turn goes once the recognizer is done. */
  datatype Route = Silent | Shutdown | EasterEgg(reply: string) | AskModel(text: string)

  /** The text one delta adds to the reply: its content, if it has any. */
  function Content(delta: Option<string>): string {
    if delta.Some? then delta.value else ""
  }

  /** The reply a stream gives: the contents of its chunks, in order. */
  function Joined(deltas: seq<Option<string>>): (r: string)
    ensures (forall i :: 0 <= i < |deltas| ==> Content(deltas[i]) == "") ==> r == ""
  {
    if deltas == [] then "" else Content(deltas[0]) + Joined(deltas[1..])
  }

  lemma {:induction false} JoinedAppend(a: seq<Option<string>>, b: seq<Option<string>>)
    ensures Joined(a + b) == Joined(a) + Joined(b)
  {
    if a == [] {
      assert a + b == b;
    } else {
      assert (a + b)[0] == a[0] && (a + b)[1..] == a[1..] + b;
      JoinedAppend(a[1..], b);
    }
  }

  /** Chunks without content, wherever they come in the stream, add nothing to the reply. */
  lemma JoinedSkipsEmpty(a: seq<Option<string>>, b: seq<Option<string>>, delta: Option<string>)
    requires delta.None? || delta.value == ""
    ensures Joined(a + [delta] + b) == Joined(a + b)
  {
    assert Joined([delta]) == "" by {
      assert [delta][1..] == [];
    }
    calc {
      Joined(a + [delta] + b);
    == { JoinedAppend(a + [delta], b); }
      Joined(a + [delta]) + Joined(b);
    == { JoinedAppend(a, [delta]); }
      Joined(a) + Joined(b);
    == { JoinedAppend(a, b); }
      Joined(a + b);
    }
  }

  /** The reply `get_gpt_response` gives for `text` with cache `cache`. */
  function ModelReply(cache: map<string, string>, text: string, completion: Completion): string {
    if text in cache then cache[text]
    else match completion
      case Streamed(deltas) => Joined(deltas)
      case ProviderError => ErrorReply
  }

  /** The cache after `get_gpt_response` for `text`: a streamed reply is stored, nothing else changes. */
  function CacheAfter(cache: map<string, string>, text: string, completion: Completion): map<string, string> {
    if text !in cache && completion.Streamed? then cache[text := Joined(completion.deltas)] else cache
  }

  /** The cache only grows: every entry keeps its value, and at most `text` is added. */
  lemma CacheGrows(cache: map<string, string>, text: string, completion: Completion)
    ensures forall k :: k in cache ==> k in CacheAfter(cache, text, completion)
                                       && CacheAfter(cache, text, completion)[k] == cache[k]
    ensures CacheAfter(cache, text, completion).Keys <= cache.Keys + {text}
  {
  }

  /**
   * Once a reply was given for `text` without an error, asking again gives
   * the same reply, whatever the provider would now answer.
   */
  lemma CacheRemembers(cache: map<string, string>, text: string, completion: Completion, later: Completion)
    requires text in cache || completion.Streamed?
    ensures text in CacheAfter(cache, text, completion)
    ensures ModelReply(CacheAfter(cache, text, completion), text, later) == ModelReply(cache, text, completion)
  {
  }

  /** A provider error is answered with the fixed error reply and is not remembered. */
  lemma ErrorNotCached(cache: map<string, string>, text: string)
    requires text !in cache
    ensures ModelReply(cache, text, ProviderError) == ErrorReply
    ensures text !in CacheAfter(cache, text, ProviderError)
  {
  }

  /**
   * The transcript the retry loop ends with, from attempt `k` on: the first
   * recognized utterance, lower-cased, unless an attempt raises or all
   * `MaxAttempts` attempts are unintelligible.
   */
  function FirstTranscript(attempts: seq<Recognition>, k: nat): (r: Option<string>)
    decreases MaxAttempts - k
    ensures r.Some? ==> NoUpper(r.value)
  {
    if k >= MaxAttempts || k >= |attempts| then None
    else match attempts[k]
      case Recognized(s) => Some(Lower(s))
      case Unintelligible => FirstTranscript(attempts, k + 1)
      case RequestFailed => None
  }

  /**
   * A transcript is found exactly when, among the first `MaxAttempts`
   * attempts from `k` on, one is recognized and all before it are unintelligible.
   */
  lemma {:induction false} TranscriptFound(attempts: seq<Recognition>, k: nat, t: string)
    decreases MaxAttempts - k
    ensures FirstTranscript(attempts, k) == Some(t) <==>
      exists j :: k <= j < MaxAttempts && j < |attempts| && attempts[j].Recognized?
                  && Lower(attempts[j].transcript) == t
                  && forall m :: k <= m < j ==> attempts[m] == Unintelligible
  {
    if k < MaxAttempts && k < |attempts| && attempts[k] == Unintelligible {
      TranscriptFound(attempts, k + 1, t);
      if FirstTranscript(attempts, k) == Some(t) {
        var j :| k + 1 <= j < MaxAttempts && j < |attempts| && attempts[j].Recognized?
                 && Lower(attempts[j].transcript) == t
                 && forall m :: k + 1 <= m < j ==> attempts[m] == Unintelligible;
        assert forall m :: k <= m < j ==> attempts[m] == Unintelligible;
      }
    }
  }

  /** Attempts past the `MaxAttempts`-th are never consulted. */
  lemma {:induction false} TranscriptWithinAttempts(attempts: seq<Recognition>, more: seq<Recognition>, k: nat)
    requires |attempts| >= MaxAttempts
    decreases MaxAttempts - k
    ensures FirstTranscript(attempts + more, k) == FirstTranscript(attempts, k)
  {
    if k < MaxAttempts {
      assert (attempts + more)[k] == attempts[k];
      TranscriptWithinAttempts(attempts, more, k + 1);
    }
  }

  /**
   * How many times the retry loop calls the recognizer from attempt `k` on:
   * it stops after the first attempt that is not unintelligible, and after
   * `MaxAttempts` attempts in all.
   */
  function AttemptsUsed(attempts: seq<Recognition>, k: nat): (n: nat)
    decreases MaxAttempts - k
    ensures k < MaxAttempts && k < |attempts| ==> 1 <= n <= MaxAttempts - k
    ensures k >= MaxAttempts ==> n == 0
  {
    if k >= MaxAttempts || k >= |attempts| then 0
    else match attempts[k]
      case Unintelligible => 1 + AttemptsUsed(attempts, k + 1)
      case _ => 1
  }

  /**
   * The recognizer is called once for each unintelligible attempt before the
   * first attempt that recognizes or raises, and once for that attempt: no
   * call follows it.
   */
  lemma {:induction false} AttemptsStopAtFirstOutcome(attempts: seq<Recognition>, k: nat, j: nat)
    requires k <= j < MaxAttempts && j < |attempts| && attempts[j] != Unintelligible
    requires forall m :: k <= m < j ==> attempts[m] == Unintelligible
    decreases j - k
    ensures AttemptsUsed(attempts, k) == j - k + 1
  {
    if k < j {
      AttemptsStopAtFirstOutcome(attempts, k + 1, j);
    }
  }

  /** The routing of `process_audio` once the recognizer is done, given what the table lookup gave. */
  function Decide(transcript: Option<string>, egg: Option<string>): (r: Route)
    ensures r == Silent <==> transcript.None? || transcript.value == ""
    ensures r == Shutdown <==> transcript == Some(ExitCommand)
    ensures r.EasterEgg? ==> transcript.value != ExitCommand && egg == Some(r.reply) && r.reply != ""
    ensures r.AskModel? ==> transcript == Some(r.text) && (egg.None? || egg == Some(""))
  {
    if transcript.None? || transcript.value == "" then Silent
    else if transcript.value == ExitCommand then Shutdown
    else match egg
      case Some(reply) => if reply != "" then EasterEgg(reply) else AskModel(transcript.value)
      case None => AskModel(transcript.value)
  }

  /** The routing of `process_audio` with the easter-egg table. */
  function RouteFor(transcript: Option<string>, pick: nat): (r: Route)
    ensures r == Silent <==> transcript.None? || transcript.value == ""
    ensures r == Shutdown <==> transcript == Some(ExitCommand)
  {
    Decide(transcript, if transcript.Some? then GetEasterEggResponse(transcript.value, pick) else None)
  }

  /** The model is asked exactly when the utterance is neither empty nor "exit" and holds no phrase of the table. */
  lemma ModelAskedIff(t: string, pick: nat)
    ensures RouteFor(Some(t), pick) == AskModel(t) <==>
      t != "" && t != ExitCommand && forall i :: 0 <= i < |Phrases| ==> !IsSubstring(Phrases[i], Normalize(t))
  {
    var egg := GetEasterEggResponse(t, pick);
    if egg.Some? {
      assert egg.value != "";
    }
  }

  /** A canned reply answers the utterance only with a reply of a phrase the utterance holds. */
  lemma EasterEggRouted(t: string, pick: nat)
    requires RouteFor(Some(t), pick).EasterEgg?
    ensures t != ExitCommand
    ensures exists i :: 0 <= i < |Phrases| && IsSubstring(Phrases[i], Normalize(t))
                        && RouteFor(Some(t), pick).reply in Replies(Responses[i])
  {
  }

  /** "exit" shuts down before the table is consulted. */
  lemma ExitRouted(pick: nat)
    ensures RouteFor(Some(ExitCommand), pick) == Shutdown
  {
  }

  /**
   * The transcript is lower-cased before routing: any recognized utterance
   * that lower-cases to "exit", at any attempt after only unintelligible
   * ones, is the exit command.
   */
  lemma ExitHeard(attempts: seq<Recognition>, j: nat, s: string)
    requires j < MaxAttempts && j < |attempts| && attempts[j] == Recognized(s) && Lower(s) == ExitCommand
    requires forall m :: 0 <= m < j ==> attempts[m] == Unintelligible
    ensures FirstTranscript(attempts, 0) == Some(ExitCommand)
  {
    TranscriptFound(attempts, 0, ExitCommand);
  }

  /** A recognized "EXIT", at any attempt after only unintelligible ones, is the exit command. */
  lemma ExitHeardInCapitals(attempts: seq<Recognition>, j: nat)
    requires j < MaxAttempts && j < |attempts| && attempts[j] == Recognized("EXIT")
    requires forall m :: 0 <= m < j ==> attempts[m] == Unintelligible
    ensures FirstTranscript(attempts, 0) == Some(ExitCommand)
  {
    assert Lower("EXIT") == ExitCommand;
    ExitHeard(attempts, j, "EXIT");
  }

  /** Saying "marco" gets "Polo!" and never reaches the model. */
  lemma MarcoRouted(pick: nat)
    ensures RouteFor(Some("marco"), pick) == EasterEgg("Polo!")
  {
    MarcoExact(pick);
  }

  /** The signals of the speech thread, from its start to its `finally` block. */
  function SpeechTrace(text: string, outcome: Playback): (r: seq<Signal>)
    ensures |r| >= 3 && r[|r| - 2..] == [Thinking(false), Listening(true)]
    ensures ResponseReady(text) in r
  {
    var body := match outcome
      case Played => [Thinking(false), ResponseReady(text)]
      case SynthesisFailed => [ResponseReady(text)]
      case WriteFailed => [ResponseReady(text)]
      case PlaybackFailed => [Thinking(false), ResponseReady(text), ResponseReady(text)];
    body + [Thinking(false), Listening(true)]
  }

  /**
   * The spoken reply reaches the chat area whether or not the audio works;
   * a failed playback shows it twice, since it was shown before playing.
   */
  lemma SpeechShowsReply(text: string, outcome: Playback)
    ensures outcome != PlaybackFailed ==> ChatArea(SpeechTrace(text, outcome)) == ChatLine(text, false)
    ensures outcome == PlaybackFailed ==> ChatArea(SpeechTrace(text, outcome)) == ChatLine(text, false) + ChatLine(text, false)
  {
    var line := ChatLine(text, false);
    var trace := SpeechTrace(text, outcome);
    assert ChatArea([Thinking(false), Listening(true)]) == "";
    assert ChatArea([ResponseReady(text), Thinking(false), Listening(true)]) == line;
    if outcome == PlaybackFailed {
      assert trace == [Thinking(false), ResponseReady(text)] + [ResponseReady(text), Thinking(false), Listening(true)];
      ChatAreaAppend([Thinking(false), ResponseReady(text)], [ResponseReady(text), Thinking(false), Listening(true)]);
    } else if outcome == Played {
      assert trace == [Thinking(false)] + [ResponseReady(text), Thinking(false), Listening(true)];
      ChatAreaAppend([Thinking(false)], [ResponseReady(text), Thinking(false), Listening(true)]);
    }
  }

  /** The signals of a turn after the transcript is shown: those of `speak`, and before them `get_gpt_response`'s. */
  function RouteSignals(route: Route): seq<Signal> {
    match route
    case Silent => []
    case AskModel(_) => [Thinking(true), Thinking(true), Listening(false)]
    case _ => [Thinking(true), Listening(false)]
  }

  /** What a turn speaks: the farewell, the canned reply or the model's reply. */
  function Spoken(cache: map<string, string>, route: Route, completion: Completion): string {
    match route
    case Silent => ""
    case Shutdown => Farewell
    case EasterEgg(reply) => reply
    case AskModel(text) => ModelReply(cache, text, completion)
  }

  /** The cache after a turn: only a turn that asks the model can change it. */
  function TurnCache(cache: map<string, string>, route: Route, completion: Completion): map<string, string> {
    if route.AskModel? then CacheAfter(cache, route.text, completion) else cache
  }

  /** The utterances a turn sends to the model: its own, on a cache miss only. */
  function TurnRequests(cache: map<string, string>, route: Route): seq<string> {
    if route.AskModel? && route.text !in cache then [route.text] else []
  }

  /** The transcribe signal, sent when the recognizer gave a transcript. */
  function Heard(transcript: Option<string>): seq<Signal> {
    if transcript.Some? then [Transcribe(transcript.value)] else []
  }

  class VoiceAssistant {
    var responseCache: map<string, string>
    var isSpeaking: bool
    var isListening: bool
    var stopListening: bool
    /** Everything emitted to the window so far. */
    var signals: seq<Signal>
    /** The text of the started speech thread that has not run yet. */
    var speechTask: Option<string>
    /** The utterances sent to the language model. */
    ghost var modelRequests: seq<string>
    /** How many times the recognizer was called. */
    ghost var recognizerCalls: nat
    /** Whether the temporary audio file exists. */
    ghost var tempAudio: bool

    /**
     * A speech thread is pending exactly while the assistant is speaking; it
     * does not listen while it speaks; no temporary audio file is left behind.
     */
    ghost predicate Valid()
      reads this
    {
      (isSpeaking <==> speechTask.Some?) && (isSpeaking ==> !isListening) && !tempAudio
    }

    constructor()
      ensures Valid()
      ensures responseCache == map[] && !isSpeaking && !isListening && !stopListening
      ensures signals == [] && speechTask == None && modelRequests == [] && recognizerCalls == 0
    {
      responseCache := map[];
      isSpeaking := false;
      isListening := false;
      stopListening := false;
      signals := [];
      speechTask := None;
      modelRequests := [];
      recognizerCalls := 0;
      tempAudio := false;
    }

    /** `get_gpt_response`: the cached reply, else the streamed reply, which is then cached. */
    method GetGptResponse(text: string, completion: Completion) returns (reply: string)
      modifies this`responseCache, this`signals, this`modelRequests
      ensures reply == ModelReply(old(responseCache), text, completion)
      ensures responseCache == CacheAfter(old(responseCache), text, completion)
      ensures text in old(responseCache) ==> reply == old(responseCache)[text] && responseCache == old(responseCache)
      ensures text in old(responseCache) ==> modelRequests == old(modelRequests)
      ensures text !in old(responseCache) ==> modelRequests == old(modelRequests) + [text]
      ensures text !in old(responseCache) && completion.Streamed? ==>
                reply == Joined(completion.deltas) && responseCache == old(responseCache)[text := reply]
      ensures text !in old(responseCache) && completion.ProviderError? ==>
                reply == ErrorReply && responseCache == old(responseCache)
      ensures signals == old(signals) + [Thinking(true)]
    {
      signals := signals + [Thinking(true)];
      if text in responseCache {
        return responseCache[text];
      }
      modelRequests := modelRequests + [text];
      match completion {
        case ProviderError =>
          reply := ErrorReply;
        case Streamed(deltas) =>
          reply := Stream(deltas);
          responseCache := responseCache[text := reply];
      }
    }

    /** The `full_response` loop: the contents of the chunks that have any, in order. */
    static method Stream(deltas: seq<Option<string>>) returns (full: string)
      ensures full == Joined(deltas)
    {
      full := "";
      var i := 0;
      while i < |deltas|
        invariant 0 <= i <= |deltas|
        invariant full == Joined(deltas[..i])
      {
        var delta := deltas[i];
        if delta.Some? && delta.value != "" {
          full := full + delta.value;
        }
        assert deltas[..i + 1] == deltas[..i] + [delta];
        JoinedAppend(deltas[..i], [delta]);
        i := i + 1;
      }
      assert deltas[..i] == deltas;
    }

    /**
     * The retry loop of `process_audio`: the recognizer is called until it
     * gives a transcript, raises, or has been called `MaxAttempts` times.
     */
    method Recognize(attempts: seq<Recognition>) returns (text: Option<string>)
      requires |attempts| == MaxAttempts
      modifies this`signals, this`recognizerCalls
      ensures text == FirstTranscript(attempts, 0)
      ensures signals == old(signals) + Heard(text)
      ensures recognizerCalls == old(recognizerCalls) + AttemptsUsed(attempts, 0)
      ensures old(recognizerCalls) < recognizerCalls <= old(recognizerCalls) + MaxAttempts
    {
      text := None;
      var failed := false;
      var k := 0;
      while k < MaxAttempts && text.None? && !failed
        invariant 0 <= k <= MaxAttempts
        invariant recognizerCalls == old(recognizerCalls) + k
        invariant text.None? && !failed ==> AttemptsUsed(attempts, 0) == k + AttemptsUsed(attempts, k)
        invariant text.Some? || failed ==> AttemptsUsed(attempts, 0) == k
        invariant text.None? && !failed ==> FirstTranscript(attempts, k) == FirstTranscript(attempts, 0)
        invariant text.Some? || failed ==> text == FirstTranscript(attempts, 0) && k > 0
        invariant signals == old(signals) + Heard(text)
        decreases MaxAttempts - k
      {
        recognizerCalls := recognizerCalls + 1;
        match attempts[k] {
          case Recognized(s) =>
            text := Some(Lower(s));
            signals := signals + [Transcribe(Lower(s))];
          case Unintelligible =>
          case RequestFailed =>
            failed := true;
        }
        k := k + 1;
      }
    }

    /** `speak`: does nothing while speaking; otherwise stops listening and starts the speech thread. */
    method Speak(text: string)
      requires Valid()
      modifies this`isSpeaking, this`isListening, this`signals, this`speechTask
      ensures Valid()
      ensures old(isSpeaking) ==> unchanged(this)
      ensures !old(isSpeaking) ==> (isSpeaking && !isListening && speechTask == Some(text)
                                    && signals == old(signals) + [Thinking(true), Listening(false)])
    {
      if isSpeaking {
        return;
      }
      isSpeaking := true;
      isListening := false;
      signals := signals + [Thinking(true), Listening(false)];
      speechTask := Some(text);
    }

    /**
     * The speech thread `speak` started: shows the reply, plays it if it can,
     * and in its `finally` block removes the audio file and clears both flags.
     */
    method RunSpeechTask(outcome: Playback)
      requires Valid() && speechTask.Some?
      modifies this`isSpeaking, this`isListening, this`signals, this`speechTask, this`tempAudio
      ensures Valid() && !isSpeaking && !isListening && speechTask == None
      ensures signals == old(signals) + SpeechTrace(old(speechTask).value, outcome)
      ensures ChatArea(signals) == ChatArea(old(signals)) + ChatArea(SpeechTrace(old(speechTask).value, outcome))
    {
      var text := speechTask.value;
      ghost var before := signals;
      match outcome {
        case Played =>
          tempAudio := true;
          signals := signals + [Thinking(false), ResponseReady(text)];
        case SynthesisFailed =>
          signals := signals + [ResponseReady(text)];
        case WriteFailed =>
          tempAudio := true;
          signals := signals + [ResponseReady(text)];
        case PlaybackFailed =>
          tempAudio := true;
          signals := signals + [Thinking(false), ResponseReady(text)];
          signals := signals + [ResponseReady(text)];
      }
      // the `finally` block
      tempAudio := false;
      signals := signals + [Thinking(false)];
      isSpeaking := false;
      isListening := false;
      signals := signals + [Listening(true)];
      speechTask := None;
      assert signals == before + SpeechTrace(text, outcome);
      ChatAreaAppend(before, SpeechTrace(text, outcome));
    }

    /**
     * The state after a turn that took route `route`: the speech thread for
     * the spoken text is pending, the stop flag is set on shutdown, and the
     * cache and the model requests changed only if the model was asked.
     */
    twostate predicate Spoke(route: Route, completion: Completion)
      reads this
    {
      && isSpeaking && speechTask == Some(Spoken(old(responseCache), route, completion))
      && stopListening == (old(stopListening) || route == Shutdown)
      && responseCache == TurnCache(old(responseCache), route, completion)
      && modelRequests == old(modelRequests) + TurnRequests(old(responseCache), route)
    }

    /**
     * What `process_audio` does with a non-empty transcript `t`: show it,
     * then speak the farewell and stop on "exit", else answer it.
     */
    method Respond(t: string, completion: Completion, pick: nat)
      requires Valid() && !isSpeaking && t != ""
      modifies this`responseCache, this`isSpeaking, this`isListening, this`signals, this`speechTask
      modifies this`stopListening, this`modelRequests
      ensures Valid()
      ensures t == ExitCommand ==>
        Spoke(Shutdown, completion) && signals == old(signals) + [UpdateText(t, true)] + RouteSignals(Shutdown)
      ensures t != ExitCommand ==>
        var route := Decide(Some(t), GetEasterEggResponse(t, pick));
        Spoke(route, completion) && signals == old(signals) + [UpdateText(t, true)] + RouteSignals(route)
    {
      signals := signals + [UpdateText(t, true)];
      if t == ExitCommand {
        Speak(Farewell);
        stopListening := true;
        return;
      }
      var egg := GetEasterEggResponse(t, pick);
      Answer(t, egg, completion);
    }

    /** Speaks the canned reply `egg` the table gave for `t` if there is one, else the model's reply. */
    method Answer(t: string, egg: Option<string>, completion: Completion)
      requires Valid() && !isSpeaking && t != "" && t != ExitCommand
      modifies this`responseCache, this`isSpeaking, this`isListening, this`signals, this`speechTask
      modifies this`modelRequests
      ensures Valid() && Spoke(Decide(Some(t), egg), completion)
      ensures signals == old(signals) + RouteSignals(Decide(Some(t), egg))
    {
      if egg.Some? && egg.value != "" {
        Speak(egg.value);
        return;
      }
      var reply := GetGptResponse(t, completion);
      Speak(reply);
    }

    /**
     * `process_audio` for one captured utterance: up to `MaxAttempts`
     * recognizer calls, then shutdown on "exit", else a canned reply, else
     * the model's reply; listening is off afterwards in every case.
     */
    method ProcessAudio(attempts: seq<Recognition>, completion: Completion, pick: nat)
      requires Valid() && |attempts| == MaxAttempts
      modifies this`responseCache, this`isSpeaking, this`isListening, this`signals, this`speechTask
      modifies this`stopListening, this`modelRequests, this`recognizerCalls
      ensures Valid() && !isListening
      ensures old(isSpeaking) ==> (signals == old(signals) && speechTask == old(speechTask) && isSpeaking
                                   && responseCache == old(responseCache) && modelRequests == old(modelRequests)
                                   && stopListening == old(stopListening) && recognizerCalls == old(recognizerCalls))
      ensures !old(isSpeaking) ==> recognizerCalls == old(recognizerCalls) + AttemptsUsed(attempts, 0)
      ensures !old(isSpeaking) ==> old(recognizerCalls) < recognizerCalls <= old(recognizerCalls) + MaxAttempts
      ensures !old(isSpeaking) ==>
        var t := FirstTranscript(attempts, 0);
        && (t.None? || t.value == "" ==>
              signals == old(signals) + Heard(t) && !isSpeaking && speechTask == None
              && responseCache == old(responseCache) && modelRequests == old(modelRequests)
              && stopListening == old(stopListening))
        && (t == Some(ExitCommand) ==>
              Spoke(Shutdown, completion)
              && signals == old(signals) + Heard(t) + [UpdateText(ExitCommand, true)] + RouteSignals(Shutdown))
        && (t.Some? && t.value != "" && t.value != ExitCommand ==>
              var route := Decide(t, GetEasterEggResponse(t.value, pick));
              Spoke(route, completion)
              && signals == old(signals) + Heard(t) + [UpdateText(t.value, true)] + RouteSignals(route))
    {
      if isSpeaking {
        isListening := false;
        return;
      }
      var text := Recognize(attempts);
      if text.None? || text.value == "" {
        isListening := false;
        return;
      }
      Respond(text.value, completion, pick);
      isListening := false;
    }
  }
}
