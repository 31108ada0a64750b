# Aria voice assistant: turn logic and easter-egg selector

This project models the core of a desktop voice assistant ("Aria").
Each captured utterance is transcribed by a speech recognizer with up to three attempts, then routed:

- "exit" speaks a farewell and stops the assistant;
- an utterance that holds a phrase of a fixed easter-egg table gets that phrase's canned reply;
- anything else goes to a language model, through a reply cache.

Replies are spoken by a speech thread that shows the reply in the chat window whether or not the audio works.

The modules follow the program's structure:

- `Text` (`text.dfy`): the Python string operations the selector uses.
  - `str.lower()` and `str.strip()`, with the exact `str.isspace` character set.
  - Substring containment (`in` on strings).
- `EasterEggs` (`easter_eggs.dfy`): the phrase table and `get_easter_egg_response`.
  - The table keeps the dictionary's insertion order.
  - A reply is either one string or a list of variants.
  - The random choice is a `pick` parameter.
- `Chat` (`chat.dfy`): the signals the assistant sends to the window, and the chat area's line format.
- `Assistant` (`assistant.dfy`): the `VoiceAssistant` class.
  - Its fields are the reply cache, the speaking, listening and stop flags, and the signals emitted so far.
  - It also keeps the pending speech thread.
  - It has three ghost fields: the requests sent to the model, the recognizer calls, and whether the temporary audio file exists.
  - Its methods are `get_gpt_response`, `speak`, the speech thread and `process_audio`.
  - The methods are proved against pure functions beside the class: `ModelReply`, `CacheAfter`, `FirstTranscript`, `AttemptsUsed`, `SpeechTrace` and `Decide`.
  - `Respond` and `ProcessAudio` state their routes by case. An empty transcript and "exit" have their own cases; any other transcript takes the route `Decide(transcript, GetEasterEggResponse(transcript, pick))`.
  - `RouteFor` is that same routing as one function. The routing lemmas (`ModelAskedIff`, `EasterEggRouted`, `ExitRouted`, `MarcoRouted`) are stated on it.

## Model

| member | source | states |
|---|---|---|
| Text.IsSpace | easter_eggs.py:79 | the characters `str.isspace` accepts, which `strip()` removes |
| Text.StripLeft | easter_eggs.py:79 | `lstrip()`: never longer than the input, and does not start with whitespace |
| Text.StripRight | easter_eggs.py:79 | `rstrip()`: never longer than the input, and does not end with whitespace |
| Text.IsSubstring | easter_eggs.py:91 | `phrase in text`: the phrase is a prefix of the text from some position on |
| Text.LowerChar | easter_eggs.py:79 | the ASCII part of `str.lower` on one character: an upper-case ASCII letter becomes its lower-case letter, every other character stays as it is, and whitespace stays whitespace |
| Text.Lower | easter_eggs.py:79 | lower-casing keeps the length and leaves no upper-case letter |
| Text.LowerIdempotent | easter_eggs.py:79 | lower-casing twice is lower-casing once |
| Text.LowerAppend | easter_eggs.py:79 | lower-casing distributes over concatenation |
| Text.Strip | easter_eggs.py:79 | the stripped text neither starts nor ends with whitespace |
| Text.StripSlice | easter_eggs.py:79 | the stripped text is the slice of the input between a whitespace prefix and a whitespace suffix |
| Text.StripPadding | easter_eggs.py:79 | whitespace added on either side does not change the stripped text |
| Text.StripFixes | easter_eggs.py:79 | a text without surrounding whitespace is returned unchanged |
| Text.SubstringReflexive | easter_eggs.py:82-91 | an exact key also occurs in the text, so an exact match is also a partial match |
| EasterEggs.Phrases | easter_eggs.py:5-65 | the 15 keys of the table, in the dictionary's insertion order |
| EasterEggs.Responses | easter_eggs.py:5-65 | the reply of each key, at the same position: a single string or a list of variants |
| EasterEggs.Choose | easter_eggs.py:84-87 | a list reply gives one of its own variants (the one at `pick` when it is in range); a single reply gives itself |
| EasterEggs.Normalize | easter_eggs.py:79 | the normalised text has no upper-case letter and no surrounding whitespace |
| EasterEggs.NormalizeIdempotent | easter_eggs.py:79 | normalising twice is normalising once |
| EasterEggs.KeyIndex | easter_eggs.py:82 | the exact-key lookup finds the position of the key, or shows that no phrase equals it |
| EasterEggs.FirstContained | easter_eggs.py:90-94 | the partial-match loop finds the first phrase, in table order, that occurs in the text, or shows that none does |
| EasterEggs.Matched | easter_eggs.py:82-97 | the phrase used occurs in the text; there is none exactly when no phrase occurs in the text |
| EasterEggs.Select | easter_eggs.py:67-97 | on any well-formed table the result is `None` exactly when no phrase occurs in the normalised text |
| EasterEggs.SelectSound | easter_eggs.py:82-94 | a reply given belongs to a phrase that occurs in the normalised text |
| EasterEggs.GetEasterEggResponse | easter_eggs.py:67-97 | on the real table: `None` iff no phrase occurs in the normalised text; otherwise a non-empty reply of such a phrase |
| EasterEggs.TableWellFormed | easter_eggs.py:5-65 | the table has one reply per phrase, distinct phrases and no empty variant list |
| EasterEggs.PhrasesDistinct | easter_eggs.py:5-65 | the 15 phrases are pairwise distinct dictionary keys |
| EasterEggs.ResponsesChoosable | easter_eggs.py:5-65 | there are 15 replies, and every list reply has a variant to choose from |
| EasterEggs.RepliesNonEmpty | easter_eggs.py:5-65 | no reply in the table is the empty string |
| EasterEggs.SelectIgnoresCase | easter_eggs.py:79 | lower-casing the input first does not change the result |
| EasterEggs.SelectIgnoresPadding | easter_eggs.py:79 | whitespace around the input does not change the result |
| EasterEggs.SelectNormalized | easter_eggs.py:79 | selecting on the normalised text gives the same result as on the raw text |
| EasterEggs.ExactMatch | easter_eggs.py:82-87 | an exact key is answered with that key's reply, whatever earlier phrases also occur; a list reply gives one of its variants |
| EasterEggs.ExactMatchReachesEveryVariant | easter_eggs.py:84-86 | every variant of an exactly matched list reply is given for some random draw |
| EasterEggs.SubstringMatch | easter_eggs.py:90-94 | with no exact key, the first phrase in table order that occurs in the text decides the reply |
| EasterEggs.PhrasesLowerTrimmed | easter_eggs.py:5-65 | every key of the table is lower-case and has no surrounding whitespace |
| EasterEggs.PhrasesNormalized | easter_eggs.py:5-79 | every key is its own normal form, so an utterance equal to a key after normalising hits that key exactly |
| EasterEggs.EveryPhraseAnswered | easter_eggs.py:82-87 | saying any of the 15 phrases exactly gets that phrase's own reply: its single string, or the variant the draw selects |
| EasterEggs.EveryVariantReachable | easter_eggs.py:84-86 | every variant of every list reply in the table is given, for some draw, when its phrase is said |
| EasterEggs.AbsentChar | easter_eggs.py:91 | a phrase with a character the text lacks does not occur in it |
| EasterEggs.MarcoEntry | easter_eggs.py:56 | the phrase "marco" has the single reply "Polo!" |
| EasterEggs.MarcoExact | easter_eggs.py:56 | "marco" is answered with "Polo!" |
| EasterEggs.MarcoInside | easter_eggs.py:90-94 | "please say marco now" is answered with "Polo!" |
| EasterEggs.PhrasesBeforeMarcoAbsent | easter_eggs.py:5-55 | no phrase equals "please say marco now", and none of the ten phrases before "marco" occurs in it |
| EasterEggs.HelloAriaPadded | easter_eggs.py:79 | "   HELLO ARIA  " is answered as "HELLO ARIA" is |
| EasterEggs.HelloAriaUpper | easter_eggs.py:79 | "HELLO ARIA" is answered as "hello aria" is |
| EasterEggs.HelloAria | easter_eggs.py:6-10 | "hello aria" is answered with one of its three greetings |
| Chat.ChatLine | main.py:191-195 | the text `update_chat` appends: "USER >>> " or "ARIA >>> ", then the text, then a line break |
| Chat.Shown | main.py:28-31 | what one signal adds to the chat area: the user's text and a ready response (shown through `display_response`, main.py:171-172) add their chat line; the indicator and transcription signals add nothing |
| Chat.ShownEntries | main.py:28-31 | a signal adds to the chat area exactly when it is the user's text or a ready response |
| Chat.ChatArea | main.py:186-195 | the chat area after the window handled the signals in order: each chat line appended at the end |
| Chat.ChatAreaOfIndicators | main.py:164-178 | signals that are neither user text nor a ready response leave the chat area empty |
| Chat.ParseChatLineInverse | main.py:191-195 | a chat line can be read back into its text and its speaker |
| Chat.ChatLineOfParse | main.py:191-195 | every line that reads back as an entry is exactly that entry's chat line |
| Chat.ChatLineInjective | main.py:191-195 | two entries give the same line only with the same text and the same speaker |
| Chat.ChatAreaAppend | main.py:186-195 | the chat area only grows: later signals append to what is shown |
| Assistant.Joined | main.py:239-250 | the reply a stream gives: the delta contents joined in order; a stream without content gives the empty reply |
| Assistant.Content | main.py:249-250 | what one chunk adds to the reply: its delta content if it has one, else nothing, as the truthiness test does (an empty content adds nothing either way) |
| Assistant.JoinedAppend | main.py:249-250 | the reply of a stream is the reply of its first part followed by that of the rest |
| Assistant.JoinedSkipsEmpty | main.py:249-250 | a chunk without content, wherever it comes, adds nothing to the reply |
| Assistant.ModelReply | main.py:235-257 | the reply of `get_gpt_response`: the cached reply, else the joined stream, else the fixed error reply |
| Assistant.CacheAfter | main.py:235-252 | the cache after `get_gpt_response`: a streamed reply on a miss is stored under the text; nothing else changes |
| Assistant.CacheGrows | main.py:235-252 | a call keeps every cached entry and adds at most the asked text |
| Assistant.CacheRemembers | main.py:235-253 | after a reply without error, asking again gives that reply, whatever the provider would now say |
| Assistant.ErrorNotCached | main.py:255-257 | a provider error on a cache miss gives the fixed error reply and caches nothing |
| Assistant.FirstTranscript | main.py:346-357 | the transcript the retry loop ends with: the first recognized attempt within three, lower-cased, unless an attempt raises first; it has no upper-case letter |
| Assistant.AttemptsUsed | main.py:347-353 | how many times the recognizer is called: once per unintelligible attempt and once for the attempt that recognizes or raises, at least 1 and at most 3 |
| Assistant.AttemptsStopAtFirstOutcome | main.py:351 | the loop stops at the first attempt that is not unintelligible: attempt `j` ends it after `j + 1` calls |
| Assistant.TranscriptFound | main.py:346-353 | a transcript is found iff some attempt within the first three is recognized and all attempts before it are unintelligible; it is that attempt's lower-cased text |
| Assistant.TranscriptWithinAttempts | main.py:347 | attempts past the third are never consulted |
| Assistant.Decide | main.py:355-374 | the route given the lookup result: silent exactly without a transcript, shutdown exactly on "exit", a canned reply only if the lookup gave a non-empty one, otherwise the model |
| Assistant.RouteFor | main.py:355-374 | the route with the table lookup: silent exactly without a transcript, shutdown exactly on "exit" |
| Assistant.ModelAskedIff | main.py:359-374 | the model is asked exactly when the transcript is not empty, is not "exit" and holds no phrase of the table |
| Assistant.EasterEggRouted | main.py:366-370 | a canned reply is spoken only for an utterance other than "exit", and it is a reply of a phrase the utterance holds |
| Assistant.ExitRouted | main.py:361-364 | "exit" routes to shutdown |
| Assistant.ExitHeard | main.py:349-363 | any utterance that lower-cases to "exit", recognized at any attempt after only unintelligible ones, is the exit command |
| Assistant.ExitHeardInCapitals | main.py:349 | a recognized "EXIT", at any attempt after only unintelligible ones, is lower-cased into the exit command |
| Assistant.MarcoRouted | main.py:366-370 | saying "marco" speaks "Polo!" and never reaches the model |
| Assistant.Heard | main.py:349-350 | the transcribe signal: emitted once, with the lower-cased transcript, exactly when the recognizer gave one |
| Assistant.RouteSignals | main.py:233-268 | the signals of a turn after the user line: thinking-on from `get_gpt_response` (main.py:233) when the model is asked, then `speak`'s thinking-on and listening-off; none for a silent turn |
| Assistant.Spoken | main.py:361-374 | the text handed to `speak`: the farewell on "exit", the canned reply, or the model's reply for the cache before the turn |
| Assistant.TurnCache | main.py:235-252 | the cache after a turn: changed only by a turn that asks the model, and then as `get_gpt_response` changes it |
| Assistant.TurnRequests | main.py:235-248 | the requests a turn sends to the model: its own utterance on a cache miss, none otherwise |
| Assistant.SpeechTrace | main.py:270-298 | the signals of the speech thread: they show the reply and end with the `finally` block's thinking-off and listening-on |
| Assistant.SpeechShowsReply | main.py:270-298 | the spoken reply reaches the chat area once whether or not synthesis or writing fails, and twice when playback fails after it was shown |
| Assistant.VoiceAssistant.Valid | main.py:259-298 | the flag discipline: a speech thread is pending exactly while speaking, the assistant does not listen while it speaks, and no temporary audio file is left behind (no modelled method turns listening on; only the run loop at main.py:331, which is not modelled, does, so the second clause holds trivially here) |
| Assistant.VoiceAssistant.Spoke | main.py:359-374 | the state after a routed turn: speaking with the thread for `Spoken` pending, stop set exactly on shutdown, cache as `TurnCache`, requests extended by `TurnRequests` |
| Assistant.VoiceAssistant.constructor | main.py:215-218 | the assistant starts with an empty cache, both flags cleared and stop not set |
| Assistant.VoiceAssistant.GetGptResponse | main.py:232-257 | a hit returns the stored reply and makes no request or cache change; a miss makes one request; a stream gives the concatenated chunk contents, which are cached; an error gives the error reply and the cache is unchanged |
| Assistant.VoiceAssistant.Stream | main.py:239-250 | the loop accumulates exactly the contents of the chunks, in order |
| Assistant.VoiceAssistant.Recognize | main.py:346-353 | the retry loop yields the first lower-cased transcript and emits it; the recognizer is called exactly `AttemptsUsed` times, so it stops at the first attempt that recognizes or raises, after 1 to 3 calls |
| Assistant.VoiceAssistant.Speak | main.py:259-268 | while speaking nothing changes; otherwise it stops listening, sets speaking and starts the speech thread for the text |
| Assistant.VoiceAssistant.RunSpeechTask | main.py:270-298 | after the speech thread both flags are cleared, the audio file is gone, and the emitted signals show the reply |
| Assistant.VoiceAssistant.Respond | main.py:359-374 | "exit" speaks the farewell and sets stop; any other transcript is answered with the table's reply or the model's reply |
| Assistant.VoiceAssistant.Answer | main.py:366-374 | a non-empty canned reply is spoken; otherwise the model's reply is spoken and the cache is updated as the model call demands |
| Assistant.VoiceAssistant.ProcessAudio | main.py:341-379 | while speaking nothing happens; without a transcript nothing is spoken and the model is not asked; "exit" speaks the farewell and sets stop; any other transcript follows the routing; the recognizer is called exactly `AttemptsUsed` times; listening is off afterwards |

## Left out

- The Qt window is not modelled. This covers the frameless window, the dragging, the indicators, the colours and the scrolling (main.py:1-185). What the window shows is the `ChatArea` of the emitted signals.
- The listening loop (main.py:318-389) is not modelled: microphone set-up, ambient-noise adjustment, capture timeouts, the waits and the thread per utterance. `ProcessAudio` models one captured utterance. Only that loop turns listening on (main.py:331), so `Valid`'s "not listening while speaking" is never put to the test by a listener that switches on.
- Threads and concurrency are not modelled: every call runs to completion before the next starts. The speech thread `speak` starts is a pending task that `RunSpeechTask` runs later, so interleavings of two utterances are not covered.
- The recognizer, the language model and the speech synthesizer are external services. Each call's result is a parameter: `Recognition` for one recognizer attempt, `Completion` for the whole stream, `Playback` for synthesis and playback.
- Delays (`time.sleep`) and the `print` diagnostics are not modelled.
- The model name, the system prompt, the token limit and the voice settings sent to the services are not modelled.
- Assistant.VoiceAssistant.GetGptResponse: an exception in the middle of a stream is folded into `ProviderError`, which has the same effect in the source (error reply, nothing cached).
- Assistant.VoiceAssistant.RunSpeechTask: a failure of `os.remove` is not modelled; the file is always treated as removed.
- Assistant.VoiceAssistant.Speak: the outer `except` of `speak` (main.py:302-316) is not modelled. That covers the clean-up, the second start of the thread, and the duplicated unreachable handler. The only statement that can raise in that `try` is the thread start at main.py:300 (a `RuntimeError` when no thread can be started), and thread start-up is left out with the threads.
- Text.Lower, Text.LowerChar: only the ASCII letters A-Z are lower-cased, whereas Python's `str.lower` maps every Unicode cased letter (for example `'É'.lower()` is `'é'`, while `LowerChar('É')` is `'É'`). As a result, an input with a non-ASCII letter that Python lower-cases to ASCII is not matched as the source matches it: with U+212A KELVIN SIGN in place of the K, "TELL ME A JOKE" gets the joke reply in the source but not in the model. Also, a letter whose lower case is longer, such as U+0130 (two characters in Python), keeps the model's `Lower` length-preserving where Python's is not.
- EasterEggs.Choose: `random.choice` is the `pick` parameter. Any variant may come out (`ExactMatchReachesEveryVariant`), but its uniform distribution is not modelled.
- Assistant.VoiceAssistant.ProcessAudio: when the recognizer raises anything other than "unknown value", the model treats it as the end of the attempts with no transcript. The source leaves the attempt loop through the outer `except`, which has the same observable effect.
