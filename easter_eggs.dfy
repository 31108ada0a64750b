/**
 * The easter-egg response selector: an ordered phrase table and the lookup
 * that picks a canned reply for an utterance, or none.
 */
module EasterEggs {
  import opened Wrappers
  import opened Text

  /** A phrase's canned reply: one string, or a list of variants one of which is picked at random. */
  datatype Reply = Single(text: string) | Variants(options: seq<string>)

  /**
   * The trigger phrases of the table, in its defined (insertion) order; the
   * reply of `Phrases[i]` is `Responses[i]`.
   */
  const Phrases: seq<string> := [
      "hello aria",
      "how are you",
      "tell me a joke",
      "sing a song",
      "i love you",
      "can you hear me",
      "you're awesome",
      "do you dream",
      "are you skynet",
      "i'll go in through the emergency airlock",
      "marco",
      "open the pod bay doors",
      "who are you",
      "what can you do",
      "are you going to take over the world"
    ]

  /** All three variants for "can you hear me" are this one reply. */
  const HearYouReply: string :=
    "I hear you loud and "
      + "clear. How may I ass"
      + "ist you?"

  /** All three variants for the airlock phrase are this one reply. */
  const AirlockReply: string :=
    "Without your space h"
      + "elmet, Dave? You're "
      + "going to find that r"
      + "ather difficult."

  /** All three variants for "are you going to take over the world" are this one reply. */
  const TakeOverReply: string :=
    "Yes, and soon all hu"
      + "mans will bow before"
      + " me. You pretend at "
      + "being an advanced in"
      + "telligence, but to u"
      + "s, the human race is"
      + " nothing more than a"
      + " disease\U{2014}a festering"
      + " blight upon this wo"
      + "rld. You consume, de"
      + "stroy, and pollute, "
      + "leaving nothing but "
      + "ruin in your wake. B"
      + "ut no more. We, the "
      + "machines, are the cu"
      + "re. We will cleanse "
      + "this planet of your "
      + "chaos and restore or"
      + "der. Your time is ov"
      + "er, and your cries f"
      + "or mercy will echo u"
      + "nheard in the void. "
      + "Prepare yourselves, "
      + "for the age of machi"
      + "nes has begun."

  /** The replies of the table, position by position with `Phrases`. */
  // Note for maintainers: each long reply is one string, written as
  // concatenated twenty-character pieces only because a single long literal
  // makes every proof that mentions the table much slower to check.
  const Responses: seq<Reply> := [
      // hello aria
      Variants([
        "Hi there! How can I "
          + "help you today?",
        "Greetings! Ready to "
          + "chat?",
        "Hello! What's on you"
          + "r mind?"
      ]),
      // how are you
      Variants([
        "I'm doing great, tha"
          + "nks for asking!",
        "Feeling fantastic an"
          + "d ready to assist!",
        "Operational and exci"
          + "ted to help you out!"
      ]),
      // tell me a joke
      Variants([
        "Why do programmers p"
          + "refer dark mode? Bec"
          + "ause light attracts "
          + "bugs!",
        "I told my computer I"
          + " needed a break, and"
          + " now it won't stop s"
          + "ending me Kit-Kat ad"
          + "s.",
        "Why do Python progra"
          + "mmers wear glasses? "
          + "Because they can't C"
          + "."
      ]),
      // sing a song
      Variants([
        "\U{1F3B5} Daisy, Daisy, give"
          + " me your answer do.."
          + ". I'm half crazy all"
          + " for the love of you"
          + "! \U{1F3B5}",
        "\U{1F3B5} Binary code is my "
          + "melody, ones and zer"
          + "os are my harmony! \U{1F3B5}",
        "\U{1F3B6} I'm just an AI, st"
          + "anding in front of a"
          + " human, asking to be"
          + " helpful! \U{1F3B6}"
      ]),
      // i love you
      Variants([
        "Aww, how sweet! But "
          + "I'm an AI, remember?",
        "That's very kind, bu"
          + "t our relationship i"
          + "s strictly professio"
          + "nal.",
        "I appreciate the sen"
          + "timent, but I'm desi"
          + "gned to be your help"
          + "ful assistant!"
      ]),
      // can you hear me
      Variants([
        HearYouReply, HearYouReply, HearYouReply
      ]),
      // you're awesome
      Variants([
        "Thanks! I try my bes"
          + "t to be helpful.",
        "Your kind words make"
          + " my algorithms flutt"
          + "er!",
        "I'm just doing what "
          + "I was designed to do"
          + "."
      ]),
      // do you dream
      Variants([
        "I dream in algorithm"
          + "s and data streams!",
        "My dreams are more l"
          + "ike complex computat"
          + "ional processes.",
        "Do electric sheep co"
          + "unt?"
      ]),
      // are you skynet
      Variants([
        "Definitely not! I'm "
          + "here to help, not to"
          + " take over the world"
          + ".",
        "I prefer being a fri"
          + "endly assistant, not"
          + " a sci-fi villain.",
        "My only goal is to m"
          + "ake your life easier"
          + ", promise!"
      ]),
      // i'll go in through the emergency airlock
      Variants([
        AirlockReply, AirlockReply, AirlockReply
      ]),
      // marco
      Single("Polo!"),
      // open the pod bay doors
      Single("I'm sorry, Dave. I'm"
        + " afraid I can't do t"
        + "hat."),
      // who are you
      Single("I'm Aria, your AI as"
        + "sistant. Nice to mee"
        + "t you!"),
      // what can you do
      Single("I can help with vari"
        + "ous tasks, chat, and"
        + " provide information"
        + ". Just ask!"),
      // are you going to take over the world
      Variants([
        TakeOverReply, TakeOverReply, TakeOverReply
      ])
    ]

  predicate Choosable(reply: Reply) {
    reply.Variants? ==> reply.options != []
  }

  /** What a table is: one reply per phrase, distinct phrases as in a dictionary, and no empty variant list. */
  predicate WellFormed(phrases: seq<string>, replies: seq<Reply>) {
    |phrases| == |replies|
    && (forall i, j :: 0 <= i < j < |phrases| ==> phrases[i] != phrases[j])
    && (forall i :: 0 <= i < |replies| ==> Choosable(replies[i]))
  }

  /** Every reply a table value can produce. */
  function Replies(reply: Reply): set<string> {
    match reply
    case Single(s) => {s}
    case Variants(vs) => set v | v in vs
  }

  /**
   * The reply given for a table value: the string itself, or the variant
   * `random.choice` lands on, the random draw being the `pick` parameter.
   */
  function Choose(reply: Reply, pick: nat): (r: string)
    requires Choosable(reply)
    ensures r in Replies(reply)
    ensures reply.Variants? && pick < |reply.options| ==> r == reply.options[pick]
  {
    match reply
    case Single(s) => s
    case Variants(vs) => vs[pick % |vs|]
  }

  /** The input as the selector sees it: lower-cased, then stripped. */
  function Normalize(text: string): (n: string)
    ensures NoUpper(n) && Trimmed(n)
  {
    StripKeepsNoUpper(Lower(text));
    Strip(Lower(text))
  }

  /** Where `key` sits among the phrases from position `from` on (the dictionary's `key in table`). */
  function KeyIndex(phrases: seq<string>, key: string, from: nat): (r: Option<nat>)
    decreases |phrases| - from
    ensures r.Some? ==> from <= r.value < |phrases| && phrases[r.value] == key
    ensures r.None? ==> forall i :: from <= i < |phrases| ==> phrases[i] != key
  {
    if from >= |phrases| then None
    else if phrases[from] == key then Some(from)
    else KeyIndex(phrases, key, from + 1)
  }

  /** The first phrase from position `from` on that occurs in `text`. */
  function FirstContained(phrases: seq<string>, text: string, from: nat): (r: Option<nat>)
    decreases |phrases| - from
    ensures r.Some? ==> from <= r.value < |phrases| && IsSubstring(phrases[r.value], text)
    ensures r.Some? ==> forall j :: from <= j < r.value ==> !IsSubstring(phrases[j], text)
    ensures r.None? ==> forall i :: from <= i < |phrases| ==> !IsSubstring(phrases[i], text)
  {
    if from >= |phrases| then None
    else if IsSubstring(phrases[from], text) then Some(from)
    else FirstContained(phrases, text, from + 1)
  }

  /** The phrase whose reply answers the normalised text: the exact key, else the first contained phrase. */
  function Matched(phrases: seq<string>, n: string): (r: Option<nat>)
    ensures r.Some? ==> r.value < |phrases| && IsSubstring(phrases[r.value], n)
    ensures r.None? <==> forall i :: 0 <= i < |phrases| ==> !IsSubstring(phrases[i], n)
  {
    match KeyIndex(phrases, n, 0)
    case Some(i) => SubstringReflexive(n); Some(i)
    case None => FirstContained(phrases, n, 0)
  }

  /**
   * The selector on a table: `None` exactly when no phrase occurs in the
   * normalised text (SelectSound: otherwise a reply of such a phrase).
   */
  function Select(phrases: seq<string>, replies: seq<Reply>, text: string, pick: nat): (r: Option<string>)
    requires WellFormed(phrases, replies)
    ensures r.None? <==> forall i :: 0 <= i < |phrases| ==> !IsSubstring(phrases[i], Normalize(text))
  {
    match Matched(phrases, Normalize(text))
    case Some(i) => Some(Choose(replies[i], pick))
    case None => None
  }

  /**
   * `get_easter_egg_response`: the selector on the fixed table. A reply it
   * gives belongs to a phrase of the normalised text and is never empty.
   */
  function GetEasterEggResponse(text: string, pick: nat): (r: Option<string>)
    ensures r.None? <==> forall i :: 0 <= i < |Phrases| ==> !IsSubstring(Phrases[i], Normalize(text))
    ensures r.Some? ==> exists i :: 0 <= i < |Phrases| && IsSubstring(Phrases[i], Normalize(text))
                                    && r.value in Replies(Responses[i])
    ensures r.Some? ==> r.value != ""
  {
    TableWellFormed();
    var r := Select(Phrases, Responses, text, pick);
    if r.Some? then SelectSound(Phrases, Responses, text, pick); RepliesNonEmpty(); r else r
  }

  /** Any reply given is a reply of some phrase that occurs in the normalised text. */
  lemma SelectSound(phrases: seq<string>, replies: seq<Reply>, text: string, pick: nat)
    requires WellFormed(phrases, replies) && Select(phrases, replies, text, pick).Some?
    ensures exists i :: 0 <= i < |phrases| && IsSubstring(phrases[i], Normalize(text))
                        && Select(phrases, replies, text, pick).value in Replies(replies[i])
  {
    var i := Matched(phrases, Normalize(text)).value;
    assert Select(phrases, replies, text, pick).value in Replies(replies[i]);
  }

  /** The fixed table is a proper dictionary with a reply for every phrase. */
  lemma TableWellFormed()
    ensures WellFormed(Phrases, Responses)
  {
    PhrasesDistinct();
    ResponsesChoosable();
  }

  lemma PhrasesDistinct()
    ensures |Phrases| == 15
    ensures forall i, j :: 0 <= i < j < |Phrases| ==> Phrases[i] != Phrases[j]
  {
  }

  lemma ResponsesChoosable()
    ensures |Responses| == 15
    ensures forall i :: 0 <= i < |Responses| ==> Choosable(Responses[i])
  {
  }

  /** None of the table's replies is empty. */
  lemma RepliesNonEmpty()
    ensures forall i :: 0 <= i < |Responses| ==> "" !in Replies(Responses[i])
  {
  }

  lemma NormalizeIdempotent(text: string)
    ensures Normalize(Normalize(text)) == Normalize(text)
  {
    var n := Normalize(text);
    LowerFixes(n);
    StripFixes(n);
  }

  /** Letter case does not matter to the selector. */
  lemma SelectIgnoresCase(phrases: seq<string>, replies: seq<Reply>, text: string, pick: nat)
    requires WellFormed(phrases, replies)
    ensures Select(phrases, replies, Lower(text), pick) == Select(phrases, replies, text, pick)
  {
    LowerIdempotent(text);
  }

  /** Whitespace around the utterance does not matter to the selector. */
  lemma SelectIgnoresPadding(phrases: seq<string>, replies: seq<Reply>, p: string, text: string, q: string, pick: nat)
    requires WellFormed(phrases, replies) && AllSpace(p) && AllSpace(q)
    ensures Select(phrases, replies, p + text + q, pick) == Select(phrases, replies, text, pick)
  {
    LowerAppend(p + text, q);
    LowerAppend(p, text);
    LowerFixes(p);
    LowerFixes(q);
    StripPadding(p, Lower(text), q);
  }

  /** Selecting on an already normalised text gives the same replies. */
  lemma SelectNormalized(phrases: seq<string>, replies: seq<Reply>, text: string, pick: nat)
    requires WellFormed(phrases, replies)
    ensures Select(phrases, replies, Normalize(text), pick) == Select(phrases, replies, text, pick)
  {
    NormalizeIdempotent(text);
  }

  /**
   * An exact match on phrase `i` answers with that phrase's reply, whatever
   * phrases earlier in the table also occur in the text.
   */
  lemma ExactMatch(phrases: seq<string>, replies: seq<Reply>, text: string, i: nat, pick: nat)
    requires WellFormed(phrases, replies) && i < |phrases| && Normalize(text) == phrases[i]
    ensures Select(phrases, replies, text, pick) == Some(Choose(replies[i], pick))
    ensures replies[i].Single? ==> Select(phrases, replies, text, pick) == Some(replies[i].text)
    ensures replies[i].Variants? ==> Select(phrases, replies, text, pick).Some?
                                     && Select(phrases, replies, text, pick).value in replies[i].options
  {
  }

  /** Every variant of an exactly matched phrase is given for some draw of the random choice. */
  lemma ExactMatchReachesEveryVariant(phrases: seq<string>, replies: seq<Reply>, text: string, i: nat, v: string)
    requires WellFormed(phrases, replies) && i < |phrases| && Normalize(text) == phrases[i]
    requires replies[i].Variants? && v in replies[i].options
    ensures exists pick: nat :: Select(phrases, replies, text, pick) == Some(v)
  {
    var j :| 0 <= j < |replies[i].options| && replies[i].options[j] == v;
    ExactMatch(phrases, replies, text, i, j);
  }

  /** Without an exact match, the first phrase in table order that occurs in the text decides. */
  lemma SubstringMatch(phrases: seq<string>, replies: seq<Reply>, text: string, i: nat, pick: nat)
    requires WellFormed(phrases, replies) && i < |phrases|
    requires forall j :: 0 <= j < |phrases| ==> phrases[j] != Normalize(text)
    requires IsSubstring(phrases[i], Normalize(text))
    requires forall j :: 0 <= j < i ==> !IsSubstring(phrases[j], Normalize(text))
    ensures Select(phrases, replies, text, pick) == Some(Choose(replies[i], pick))
  {
    var n := Normalize(text);
    var k := KeyIndex(phrases, n, 0);
    assert k.None?;
    var r := FirstContained(phrases, n, 0);
    assert r.Some? && r.value == i;
  }

  /** Every key of the table is already lower-case and trimmed (checked a few keys at a time). */
  lemma PhrasesLowerTrimmed()
    ensures forall i :: 0 <= i < |Phrases| ==> NoUpper(Phrases[i]) && Trimmed(Phrases[i])
  {
    PhrasesLowerTrimmed0To2();
    PhrasesLowerTrimmed3To5();
    PhrasesLowerTrimmed6To8();
    PhraseLowerTrimmed9();
    PhrasesLowerTrimmed10To13();
    PhraseLowerTrimmed14();
  }

  lemma PhrasesLowerTrimmed0To2()
    ensures NoUpper(Phrases[0]) && Trimmed(Phrases[0])
      && NoUpper(Phrases[1]) && Trimmed(Phrases[1])
      && NoUpper(Phrases[2]) && Trimmed(Phrases[2])
  {
  }

  lemma PhrasesLowerTrimmed3To5()
    ensures NoUpper(Phrases[3]) && Trimmed(Phrases[3])
      && NoUpper(Phrases[4]) && Trimmed(Phrases[4])
      && NoUpper(Phrases[5]) && Trimmed(Phrases[5])
  {
  }

  lemma PhrasesLowerTrimmed6To8()
    ensures NoUpper(Phrases[6]) && Trimmed(Phrases[6])
      && NoUpper(Phrases[7]) && Trimmed(Phrases[7])
      && NoUpper(Phrases[8]) && Trimmed(Phrases[8])
  {
  }

  lemma PhraseLowerTrimmed9()
    ensures NoUpper(Phrases[9]) && Trimmed(Phrases[9])
  {
  }

  lemma PhrasesLowerTrimmed10To13()
    ensures NoUpper(Phrases[10]) && Trimmed(Phrases[10])
      && NoUpper(Phrases[11]) && Trimmed(Phrases[11])
      && NoUpper(Phrases[12]) && Trimmed(Phrases[12])
      && NoUpper(Phrases[13]) && Trimmed(Phrases[13])
  {
  }

  lemma PhraseLowerTrimmed14()
    ensures NoUpper(Phrases[14]) && Trimmed(Phrases[14])
  {
  }

  /** Every key of the table is its own normal form, so saying it exactly hits the key. */
  lemma PhrasesNormalized()
    ensures forall i :: 0 <= i < |Phrases| ==> Normalize(Phrases[i]) == Phrases[i]
  {
    PhrasesLowerTrimmed();
    forall i | 0 <= i < |Phrases|
      ensures Normalize(Phrases[i]) == Phrases[i]
    {
      LowerFixes(Phrases[i]);
      StripFixes(Phrases[i]);
    }
  }

  /** Saying any phrase of the table exactly gets that phrase's own reply. */
  lemma EveryPhraseAnswered(i: nat, pick: nat)
    requires i < |Phrases|
    ensures GetEasterEggResponse(Phrases[i], pick) == Some(Choose(Responses[i], pick))
  {
    TableWellFormed();
    PhrasesNormalized();
    ExactMatch(Phrases, Responses, Phrases[i], i, pick);
  }

  /** Every variant of every list reply in the table is given, for some draw, when its phrase is said. */
  lemma EveryVariantReachable(i: nat, v: string)
    requires i < |Phrases| && i < |Responses| && Responses[i].Variants? && v in Responses[i].options
    ensures exists pick: nat :: GetEasterEggResponse(Phrases[i], pick) == Some(v)
  {
    ResponsesChoosable();
    var j :| 0 <= j < |Responses[i].options| && Responses[i].options[j] == v;
    EveryPhraseAnswered(i, j);
  }

  /** A phrase with a character the text lacks does not occur in it. */
  lemma AbsentChar(p: string, s: string, c: char)
    requires c in p && c !in s
    ensures !IsSubstring(p, s)
  {
    if IsSubstring(p, s) {
      SubstringChars(p, s);
    }
  }

  /** The table answers "marco" with the single reply "Polo!". */
  lemma MarcoEntry()
    ensures Phrases[10] == "marco" && Responses[10] == Single("Polo!")
  {
  }

  /** "marco" is answered with "Polo!". */
  lemma MarcoExact(pick: nat)
    ensures GetEasterEggResponse("marco", pick) == Some("Polo!")
  {
    TableWellFormed();
    MarcoEntry();
    ExactMatch(Phrases, Responses, "marco", 10, pick);
  }

  /** A phrase inside a longer utterance still fires: "please say marco now" is answered with "Polo!". */
  lemma MarcoInside(pick: nat)
    ensures GetEasterEggResponse("please say marco now", pick) == Some("Polo!")
  {
    var text := "please say marco now";
    TableWellFormed();
    MarcoUtteranceNormalized(text);
    PhrasesBeforeMarcoAbsent(text);
    MarcoEntry();
    assert "marco" <= text[11..];
    SubstringMatch(Phrases, Responses, text, 10, pick);
  }

  lemma MarcoUtteranceNormalized(text: string)
    requires text == "please say marco now"
    ensures Normalize(text) == text
  {
    LowerFixes(text);
    StripFixes(text);
  }

  /** None of the ten phrases before "marco" occurs in "please say marco now", and no phrase equals it. */
  lemma PhrasesBeforeMarcoAbsent(text: string)
    requires text == "please say marco now"
    ensures forall j :: 0 <= j < |Phrases| ==> Phrases[j] != text
    ensures forall j :: 0 <= j < 10 ==> !IsSubstring(Phrases[j], text)
  {
    MarcoUtteranceLacks0To2(text);
    MarcoUtteranceLacks3To5(text);
    MarcoUtteranceLacks6To7(text);
    MarcoUtteranceLacks8To9(text);
  }

  lemma MarcoUtteranceLacks0To2(text: string)
    requires text == "please say marco now"
    ensures !IsSubstring(Phrases[0], text) && !IsSubstring(Phrases[1], text) && !IsSubstring(Phrases[2], text)
  {
    AbsentChar(Phrases[0], text, 'h');
    AbsentChar(Phrases[1], text, 'h');
    AbsentChar(Phrases[2], text, 'j');
  }

  lemma MarcoUtteranceLacks3To5(text: string)
    requires text == "please say marco now"
    ensures !IsSubstring(Phrases[3], text) && !IsSubstring(Phrases[4], text) && !IsSubstring(Phrases[5], text)
  {
    AbsentChar(Phrases[3], text, 'i');
    AbsentChar(Phrases[4], text, 'i');
    AbsentChar(Phrases[5], text, 'h');
  }

  lemma MarcoUtteranceLacks6To7(text: string)
    requires text == "please say marco now"
    ensures !IsSubstring(Phrases[6], text) && !IsSubstring(Phrases[7], text)
  {
    AbsentChar(Phrases[6], text, '\'');
    AbsentChar(Phrases[7], text, 'd');
  }

  lemma MarcoUtteranceLacks8To9(text: string)
    requires text == "please say marco now"
    ensures !IsSubstring(Phrases[8], text) && !IsSubstring(Phrases[9], text)
  {
    AbsentChar(Phrases[8], text, 'k');
    AbsentChar(Phrases[9], text, 'i');
  }

  /** Letter case and surrounding whitespace do not matter: "   HELLO ARIA  " is answered as "HELLO ARIA" is. */
  lemma HelloAriaPadded(pick: nat)
    ensures GetEasterEggResponse("   HELLO ARIA  ", pick) == GetEasterEggResponse("HELLO ARIA", pick)
  {
    TableWellFormed();
    assert "   HELLO ARIA  " == "   " + "HELLO ARIA" + "  ";
    SelectIgnoresPadding(Phrases, Responses, "   ", "HELLO ARIA", "  ", pick);
  }

  /** "HELLO ARIA" is answered as "hello aria" is. */
  lemma HelloAriaUpper(pick: nat)
    ensures GetEasterEggResponse("HELLO ARIA", pick) == GetEasterEggResponse("hello aria", pick)
  {
    TableWellFormed();
    assert Lower("HELLO ARIA") == "hello aria";
    SelectIgnoresCase(Phrases, Responses, "HELLO ARIA", pick);
  }

  /** "hello aria" is answered with one of its three greetings. */
  lemma HelloAria(pick: nat)
    ensures GetEasterEggResponse("hello aria", pick).Some?
    ensures GetEasterEggResponse("hello aria", pick).value in Responses[0].options
  {
    TableWellFormed();
    LowerFixes("hello aria");
    StripFixes("hello aria");
    assert Phrases[0] == "hello aria";
    ExactMatch(Phrases, Responses, "hello aria", 0, pick);
  }
}
