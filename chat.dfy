/**
 * What the assistant tells the window, and what the window's chat area shows:
 * the signals of the signal emitter and the line format of the chat area.
 */
module Chat {
  import opened Wrappers

  /** One emission of the signal emitter, in the order the assistant emits them. */
  datatype Signal =
    | UpdateText(text: string, isUser: bool)
    | Listening(on: bool)
    | Thinking(on: bool)
    | Transcribe(text: string)
    | ResponseReady(text: string)

  const UserPrefix: string := "USER >>> "
  const AriaPrefix: string := "ARIA >>> "

  /** The text a chat entry appends to the chat area: the speaker's prefix, the text and a line break. */
  function ChatLine(text: string, isUser: bool): string {
    (if isUser then UserPrefix else AriaPrefix) + text + "\n"
  }

  /** Reads a chat-area line back into its text and speaker; `None` for a line the chat area never holds. */
  function ParseChatLine(line: string): Option<(string, bool)> {
    if |line| < |UserPrefix| + 1 || line[|line| - 1] != '\n' then None
    else if line[..|UserPrefix|] == UserPrefix then Some((line[|UserPrefix|..|line| - 1], true))
    else if line[..|AriaPrefix|] == AriaPrefix then Some((line[|AriaPrefix|..|line| - 1], false))
    else None
  }

  /** A chat line says who spoke and what was said: both can be read back from it. */
  lemma ParseChatLineInverse(text: string, isUser: bool)
    ensures ParseChatLine(ChatLine(text, isUser)) == Some((text, isUser))
  {
    var line := ChatLine(text, isUser);
    var prefix := if isUser then UserPrefix else AriaPrefix;
    assert line[..|prefix|] == prefix;
    assert line[|prefix|..|line| - 1] == text;
    if !isUser {
      assert line[..|UserPrefix|][0] == 'A';
    }
  }

  /** Every line that reads back as an entry is exactly the chat line of that entry. */
  lemma ChatLineOfParse(line: string, text: string, isUser: bool)
    requires ParseChatLine(line) == Some((text, isUser))
    ensures ChatLine(text, isUser) == line
  {
    var prefix := if isUser then UserPrefix else AriaPrefix;
    assert line == line[..|prefix|] + line[|prefix|..|line| - 1] + [line[|line| - 1]];
  }

  /** Two entries give the same line only if they have the same text and the same speaker. */
  lemma ChatLineInjective(t1: string, u1: bool, t2: string, u2: bool)
    requires ChatLine(t1, u1) == ChatLine(t2, u2)
    ensures t1 == t2 && u1 == u2
  {
    ParseChatLineInverse(t1, u1);
    ParseChatLineInverse(t2, u2);
  }

  /** What one signal adds to the chat area: user text and ready responses are shown, the rest is not. */
  function Shown(signal: Signal): (r: string)
  {
    match signal
    case UpdateText(text, isUser) => ChatLine(text, isUser)
    case ResponseReady(text) => ChatLine(text, false)
    case _ => ""
  }

  /** The chat area after the window has handled `signals` in order. */
  function ChatArea(signals: seq<Signal>): (r: string)
  {
    if signals == [] then "" else Shown(signals[0]) + ChatArea(signals[1..])
  }

  /** Only the user's text and the ready responses reach the chat area; the indicator and transcription signals do not. */
  lemma ShownEntries(signal: Signal)
    ensures Shown(signal) != "" <==> signal.UpdateText? || signal.ResponseReady?
  {
  }

  /** Signals that show nothing leave the chat area empty, however many there are. */
  lemma {:induction false} ChatAreaOfIndicators(signals: seq<Signal>)
    requires forall i :: 0 <= i < |signals| ==> !signals[i].UpdateText? && !signals[i].ResponseReady?
    ensures ChatArea(signals) == ""
  {
    if signals != [] {
      ChatAreaOfIndicators(signals[1..]);
    }
  }

  /** The chat area only grows: later signals append to what earlier ones showed. */
  lemma {:induction false} ChatAreaAppend(a: seq<Signal>, b: seq<Signal>)
    ensures ChatArea(a + b) == ChatArea(a) + ChatArea(b)
  {
    if a == [] {
      assert a + b == b;
    } else {
      assert (a + b)[0] == a[0] && (a + b)[1..] == a[1..] + b;
      ChatAreaAppend(a[1..], b);
    }
  }
}
