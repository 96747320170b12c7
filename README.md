# Valentine scratcher: a verified model of its game logic

This project models the game logic of the Valentine lottery scratcher in Dafny.
The sender types a message. The message becomes a path-safe token in a link.
The recipient scratches lottery cards, and every winning card reveals the next
word of the message until the whole message has been collected.

The model covers five parts:

- **Message codec** (`UrlEncoder`, over `Utf8`, `Base64` and `JsText`).
  - Text goes to UTF-8 bytes (RFC 3629).
  - The bytes go to Base64, as `btoa` does (section 4 of RFC 4648).
  - The result is made path-safe: base64url substitutions (section 5 of RFC 4648), with the padding dropped (section 3.2).
  - Decoding is the reverse. Padding is restored by a loop. `atob` follows the WHATWG forgiving-base64 decode. Every failure comes back as `None`.
  - `JsText` models JavaScript's `trim` and `split(/\s+/)` with the ECMAScript white-space set.
- **Progress store** (`GameProgress`).
  - `localStorage` is the `storage` map of a `Store` object, keyed by `"valentine_scratcher_" + token`.
  - The game state is a value.
  - `addWord`, `getOrCreateGameState`, `resetGameState` and `getNextWord` are methods, proved against specification functions.
  - The game page's "win, then next word, then add it" step is composed from them, which is how the first finding below comes out.
- **Card generator** (`Config`).
  - The game's constants.
  - `generateRandomNumber` over a supplied random draw.
  - `generatePrizeNumbers` as a rejection-sampling loop over a finite sequence of draws.
  - `checkWin`.
- **Scratch surface** (`ScratchCard`).
  - The overlay canvas is an RGBA byte `array`.
  - Stroke counting, with the coverage test on every fifth stroke.
  - The transparent-pixel counting loop.
  - The 40% threshold as integer cross-multiplication.
  - The one-shot `handleReveal`.
- **Reveal counters and the message form** (`RevealCounters`, `MessageInput`).
  - `Card` and `PrizeScratcher` count child reveals and fire `onAllRevealed`.
  - The form validates the message, then builds `origin + "/" + token`, and shows a word count.

Three behaviours of the code are worth noting:

- `atob` is forgiving. `decodeMessage` therefore accepts tokens that still hold `+`, `/`, `=` or ASCII white space, and does not reject every reserved character.
- `addWord` marks the state complete when the collection reaches *at least* `totalWords`. It does not guard against duplicate words.
- `generatePrizeNumbers` has no configuration error. With a count above the range it never stops. Here it returns `None` when the supplied draws run out.

## Model

| member | source | states |
|---|---|---|
| JsText.Trim | lib/urlEncoder.ts:14 | the trimmed text is empty exactly for all-white-space input; otherwise it starts and ends with a non-space and is a slice of the input with only white space around it |
| JsText.Split | lib/urlEncoder.ts:86 | `split(/\s+/)` yields at least one piece and no piece holds white space |
| JsText.SplitSeparators | lib/urlEncoder.ts:86 | the input is its pieces joined by non-empty white-space separators, and every piece between two separators is non-empty, so the pieces break exactly at the maximal white-space runs |
| JsText.SplitCountsSpaceRuns | lib/urlEncoder.ts:86 | there is one piece more than there are maximal runs of white space in the input |
| JsText.SplitKeepsText | lib/urlEncoder.ts:86 | concatenating the pieces gives the input with its white space removed |
| JsText.SplitTrimmedWords | lib/urlEncoder.ts:86 | a trimmed string splits into non-empty words; the empty string splits into `[""]` |
| JsText.Words | components/MessageInput.tsx:21 | `trim().split(/\s+/)` is `[""]` for blank text, otherwise non-empty space-free words that hold all of the trimmed text's non-space characters |
| JsText.WordsCountsWordRuns | components/MessageInput.tsx:21 | a text has no run of non-white-space code points exactly when it is blank; otherwise the number of words is the number of such maximal runs, and a blank text still gives one piece |
| Utf8.DecodeFirstOfEncodeChar | lib/urlEncoder.ts:20 | decoding the UTF-8 bytes of a character (followed by anything) yields that character and its byte length |
| Utf8.DecodeEncode | lib/urlEncoder.ts:55 | the strict UTF-8 decoding that `decodeURIComponent(escape(…))` performs inverts `unescape(encodeURIComponent(…))` for every string |
| Base64.EncodeBody | lib/urlEncoder.ts:20 | the unpadded Base64 body uses only the standard alphabet, has at least as many characters as bytes, and its length is 0, 2 or 3 mod 4 as the byte count is 0, 1 or 2 mod 3 |
| Base64.Encode | lib/urlEncoder.ts:20 | `btoa` output has a length that is a multiple of 4 and holds only alphabet characters and `=` |
| Base64.Decode | lib/urlEncoder.ts:55 | `atob` succeeds exactly when the input, without ASCII white space and final padding, is alphabet-only and not 1 mod 4 long |
| Base64.QuantumRoundTrip | lib/urlEncoder.ts:20 | decoding the four characters of three bytes gives the bytes back |
| Base64.DecodeBodyEncodeBody | lib/urlEncoder.ts:55 | decoding the unpadded body of any byte string gives the bytes back |
| Base64.DecodeEncode | lib/urlEncoder.ts:55 | `atob(btoa(bs)) == bs` for every byte string |
| UrlEncoder.EncodeMessage | lib/urlEncoder.ts:13-31 | fails with "Message cannot be empty" exactly for an empty or blank message; otherwise yields a non-empty token of base64url characters only, so no `+`, `/` or `=` |
| UrlEncoder.UrlSafeOfEncode | lib/urlEncoder.ts:23-26 | the three replacements turn `btoa` output into the translated body: the padding is removed and nothing else is, and every character is base64url |
| UrlEncoder.Padded | lib/urlEncoder.ts:49-52 | restored padding makes the length a multiple of 4 with fewer than four `=`, keeps the input as prefix and appends only `=` |
| UrlEncoder.RestorePadding | lib/urlEncoder.ts:50-52 | the `while (base64.length % 4)` loop produces exactly `Padded` of its input |
| UrlEncoder.Decoded | lib/urlEncoder.ts:38-60 | `decodeMessage` gives `None` for every empty or blank token |
| UrlEncoder.DecodeMessage | lib/urlEncoder.ts:38-60 | the method (blank check, substitutions, padding loop, `atob`, UTF-8 decode) returns `Decoded(token)` |
| UrlEncoder.RoundTrip | lib/urlEncoder.ts:13-55 | every non-blank message encodes, and its token decodes back to the message |
| UrlEncoder.ForeignCharacterRejected | lib/urlEncoder.ts:43-59 | a token holding a character outside both alphabets, `=` and ASCII white space decodes to `None` |
| UrlEncoder.LengthOneModFourRejected | lib/urlEncoder.ts:49-55 | a base64url token whose length is 1 mod 4 decodes to `None` |
| UrlEncoder.IsValidEncodedMessage | lib/urlEncoder.ts:67-74 | true iff the token decodes to text that is not blank |
| UrlEncoder.EncodedMessagesAreValid | lib/urlEncoder.ts:67-74 | the token of every non-blank message is valid |
| UrlEncoder.GetWordCount | lib/urlEncoder.ts:82-87 | 0 exactly when decoding fails or yields ""; for a valid token the number of words, which is the number of maximal non-white-space runs of its text; 1 for a token that decodes to white space only |
| UrlEncoder.BlankTokenCountsOneWord | lib/urlEncoder.ts:82-87 | "IA" decodes to " ", is not valid, yet `getWordCount` reports 1 where the documented count is 0 |
| UrlEncoder.WordCount | lib/urlEncoder.ts:76-81 | the documented count: 0 exactly for invalid tokens, otherwise the number of words, which is the number of maximal non-white-space runs of the decoded text |
| Config.RandomNumber | lib/config.ts:44-48 | the drawn number lies in [MIN_NUMBER, MAX_NUMBER] = [1, 10] and is the floor of `u * 10`, plus 1 |
| Config.Dedup | lib/config.ts:56-62 | the set's array holds each drawn value once, and exactly the drawn values |
| Config.FirstIndex | lib/config.ts:59 | the position of a value's first draw: it holds the value and no earlier draw does |
| Config.DedupFirstDrawOrder | lib/config.ts:59-62 | for any two positions `i < j` of the set's array, the value at `i` was first drawn before the value at `j`: `Array.from` lists values in order of first draw |
| Config.Drawn | lib/config.ts:59 | one in-range number per draw, each `generateRandomNumber` of its draw |
| Config.DistinctInRangeBound | lib/config.ts:17-19 | distinct numbers from the range are at most `MAX_NUMBER - MIN_NUMBER + 1` many |
| Config.MonotoneDedupDrawn | lib/config.ts:58-60 | the set never shrinks as more numbers are drawn |
| Config.GeneratePrizeNumbers | lib/config.ts:55-63 | `count` defaults to `PRIZE_COUNT` = 6; succeeds iff the draws hold `count` distinct numbers; then returns exactly `count` distinct in-range numbers in order of first draw, stops at the first draw that fills the set, and `count` fits the range |
| Config.CheckWin | lib/config.ts:71-73 | true iff the player's number occurs among the prize numbers |
| GameProgress.StorageKey | lib/gameState.ts:17-24 | the key is the prefix followed by the token |
| GameProgress.StorageKeyInjective | lib/gameState.ts:22-24 | two tokens share a key iff they are equal |
| GameProgress.InitializeGameState | lib/gameState.ts:32-42 | no words collected, not complete, with the given total and token |
| GameProgress.AddedWord | lib/gameState.ts:91-100 | the word appended, total and token unchanged, complete iff it was complete or the new length reaches the total, so completion is never undone |
| GameProgress.HasWordTracksAdds | lib/gameState.ts:153-155 | a fresh state has no word; after adding, `hasWord` holds for exactly the old words and the added one |
| GameProgress.FirstUncollectedSpec | lib/gameState.ts:163-170 | every word before the chosen position is collected and the word at it is not |
| GameProgress.FirstUncollectedUnique | lib/gameState.ts:163-170 | that position is the only one with those two properties |
| GameProgress.NextWordSpec | lib/gameState.ts:163-170 | no next word iff every word is collected; otherwise the first uncollected word in list order |
| GameProgress.GetNextWord | lib/gameState.ts:163-170 | the scanning loop with early return yields `NextWord` |
| GameProgress.Store.LoadGameState | lib/gameState.ts:49-68 | a state iff the token's key holds a readable record, that record, and in a consistent store its token is the one asked for |
| GameProgress.Store.SaveGameState | lib/gameState.ts:74-83 | writes the state under its own key, after which it loads back, and keeps the store consistent |
| GameProgress.Store.AddWord | lib/gameState.ts:91-104 | returns `AddedWord`, stores it under its key, and leaves every other key unchanged |
| GameProgress.Store.ResetGameState | lib/gameState.ts:110-119 | removes exactly the token's key, after which nothing loads for it |
| GameProgress.Store.GetOrCreateGameState | lib/gameState.ts:127-145 | with nothing loadable it stores and returns a fresh state; otherwise it returns the record with only `totalWords` replaced, and rewrites it only when the total differs |
| GameProgress.Store.CollectWin | lib/gameState.ts:91-104 | the game page's handling of a winning card (its lines 96-100): `getNextWord`, then `addWord` when there is a next word and it is not empty (`if (nextWord)`); the result is one step of `AfterWins` and is stored, and with no next word, or an empty one, nothing changes |
| GameProgress.Store.ResetAndReload | lib/gameState.ts:110-145 | the game page's reset (its lines 126-127): `resetGameState` followed by `getOrCreateGameState` yields and stores a fresh state |
| GameProgress.PrefixNextWord | lib/gameState.ts:163-170 | with distinct words collected as a prefix, the next word is the one right after the prefix |
| GameProgress.DistinctWordsComplete | lib/gameState.ts:91-170 | for a message without repeated or empty words, `k` wins collect the first `k` words, and the game completes exactly at the last |
| GameProgress.CollectInOrder | lib/gameState.ts:91-100 | adding word `n` to the first `n` words gives the first `n + 1`, complete iff that is all of them |
| GameProgress.RepeatedWordNeverCompletes | lib/gameState.ts:163-170 | for "you and you" no number of wins completes the game; the collection stays at ["you", "and"] |
| GameProgress.NextWordInOrder | lib/gameState.ts:163-170 | the next word by position: the word after the collected count, none once all are collected |
| GameProgress.InOrderWordsComplete | lib/gameState.ts:91-100 | with positional choice every message of one or more non-empty words, repeated words included, is collected in order and completes exactly at its last word |
| GameProgress.InOrderAgreesOnDistinctWords | lib/gameState.ts:163-170 | on messages without repeated words the positional choice is the one `getNextWord` makes |
| ScratchCard.ErasedAlpha | components/ScratchCard.tsx:114-117 | `destination-out` never raises alpha, keeps a transparent pixel transparent, clears it under full coverage and leaves it under none |
| ScratchCard.ErasedPixels | components/ScratchCard.tsx:114-117 | a stroke changes only alpha bytes, never raises one, and never makes a transparent pixel visible |
| ScratchCard.TransparentCount | components/ScratchCard.tsx:130-132 | the count of zero-alpha pixels is at most the number of pixels |
| ScratchCard.ThresholdIsRatio | components/ScratchCard.tsx:134 | `10 * transparent >= 4 * total` holds iff `transparent / total >= 0.4` |
| ScratchCard.ErasingKeepsTransparent | components/ScratchCard.tsx:114-117 | a stroke never lowers the transparent count |
| ScratchCard.FullStrokeClearsAll | components/ScratchCard.tsx:114-117 | a fully covering stroke makes every pixel transparent |
| ScratchCard.UniformAlphaCount | components/ScratchCard.tsx:130-132 | a cleared overlay counts every pixel and an opaque one counts none |
| ScratchCard.ScratchSurface.constructor | components/ScratchCard.tsx:28-33 | a new surface has a transparent buffer of `4 * width * height` bytes, counter 0, not scratching, revealed as the prop says |
| ScratchCard.ScratchSurface.InitOverlay | components/ScratchCard.tsx:57-84 | unless revealed, fills the overlay with the opaque overlay colour and resets the stroke counter |
| ScratchCard.ScratchSurface.CountTransparent | components/ScratchCard.tsx:124-132 | the loop over every fourth byte counts the zero-alpha pixels, at most `width * height` |
| ScratchCard.ScratchSurface.HandleReveal | components/ScratchCard.tsx:139-155 | a no-op once revealed; otherwise clears every byte, sets `hasRevealed` and calls `onReveal` once if present |
| ScratchCard.ScratchSurface.Scratch | components/ScratchCard.tsx:107-137 | a no-op once revealed; otherwise erases, adds one stroke, and reveals iff the count is a multiple of 5 and the erased overlay reaches 40% |
| ScratchCard.ScratchSurface.PointerDown | components/ScratchCard.tsx:157-162 | a no-op once revealed; otherwise starts scratching and performs one scratch: one more stroke, and the overlay cleared with `onReveal` called iff the count is a multiple of 5 and the erased overlay reaches 40%, else the erased overlay and no reveal |
| ScratchCard.ScratchSurface.PointerMove | components/ScratchCard.tsx:164-168 | keeps `isScratching`; changes nothing unless scratching and not revealed, and then performs one scratch with the same stroke, erase and reveal outcome as `Scratch` |
| ScratchCard.ScratchSurface.PointerUp | components/ScratchCard.tsx:170-172 | stops scratching and changes nothing else |
| RevealCounters.CallsAfter | components/Card.tsx:31-37 | the callback count after `n` reveals is at most `n`, and 0 without a callback |
| RevealCounters.CallsClosedForm | components/Card.tsx:34-36 | the callback fires on every reveal from the target on, and never before |
| RevealCounters.RevealedSurfacesBound | components/Card.tsx:16 | the surfaces that reported are at most all of them, and as many only when they are all |
| RevealCounters.AtMostOnce | components/Card.tsx:31-37 | with every surface reporting at most once, the callback fires at most once, and exactly once when all surfaces have reported |
| RevealCounters.Card.constructor | components/Card.tsx:15-16 | `totalCards` is the number of prize numbers plus one, with no reveals counted |
| RevealCounters.Card.HandleCardRevealed | components/Card.tsx:31-37 | counts one reveal, fires iff the count reaches `totalCards` and a callback exists, and has fired once exactly when every surface has revealed |
| RevealCounters.PrizeScratcher.constructor | components/PrizeScratcher.tsx:14-19 | the target is the number of prize numbers, with no reveals counted |
| RevealCounters.PrizeScratcher.HandlePrizeRevealed | components/PrizeScratcher.tsx:16-22 | counts one reveal, fires iff the count reaches the number of prizes and a callback exists, and has fired once exactly when every prize has revealed |
| MessageInput.DisplayedWordCount | components/MessageInput.tsx:89 | 0 exactly for a blank message, otherwise the number of words of the trimmed message; in both cases the number of maximal runs of non-white-space code points of the message |
| MessageInput.TrimmedRoundTrip | components/MessageInput.tsx:26-29 | the trimmed text of a non-blank message encodes, and its token decodes back to it |
| MessageInput.GenerateSpec | components/MessageInput.tsx:16-29 | "Please enter a message" for a blank message, "Message should have at least 3 words" for fewer than three words; success exactly when the message has at least three maximal non-white-space runs, and then the token is `encodeMessage` of the trimmed message, holds only base64url characters (so no `+`, `/` or `=` to break the link path) and decodes back to the trimmed message |
| MessageInput.Form.constructor | components/MessageInput.tsx:7-10 | the form starts with empty message, link and error, and not copied |
| MessageInput.Form.Edit | components/MessageInput.tsx:77 | typing replaces the message and nothing else |
| MessageInput.Form.HandleGenerate | components/MessageInput.tsx:12-35 | clears `copied`; on rejection shows the error and keeps the old link; otherwise clears the error and sets the link to origin, "/" and the token |
| MessageInput.Form.HandleKeyPress | components/MessageInput.tsx:47-52 | Enter without Shift generates; any other key changes nothing |

## Left out

- Floating point:
  - The canvas sizes of `Card.tsx` and the pointer-coordinate scaling in `ScratchCard.tsx` are left out.
  - The anti-aliased brush disc is left out. A stroke is a per-pixel coverage byte, and the alpha update is rounded down.
  - The random texture is left out. It is drawn at 10% opacity and never makes a pixel transparent.
- Config.RandomNumber: takes the floor of the exact product `u * 10`, where JavaScript first rounds the product to a double; for a draw just below 0.9 (such as 4053239664633446 times 2^-52) JavaScript gets 10 and the model 9. The range [1, 10] holds either way.
- The text canvas and the JSX branches are rendering only.
- The reveal counters see surfaces by a ghost identifier. The at-most-once argument assumes that each `ScratchSurface` fires once, as its `HandleReveal` proves.
- The platform is left out: `typeof window` checks, `localStorage` exceptions and JSON parsing. A record that does not parse, or that lacks a `collectedWords` array, is the `Unreadable` stored value.
- `origin` is a constructor parameter of the form.
- `Math.random()` is a supplied real in [0, 1). `generatePrizeNumbers` reads a finite sequence of draws.
- Config.GeneratePrizeNumbers: returns `None` when the draws run out before the set is full, where the source keeps drawing forever.
- `char` is a Unicode scalar value, so a lone surrogate cannot occur. The `"Invalid message encoding"` branch of `encodeMessage` is therefore unreachable. So is the catch branch of `handleGenerate` ("Failed to generate link. Please try again.").
- `console.error` logging is left out.
- From `MessageInput`: `handleCopy`, the clipboard, the two-second timer and the 200-character `maxLength` attribute of the text box.
- React scheduling is left out. State setters are field assignments that take effect at once. Effects run when their method is called.
- The game page itself is left out, apart from the two steps modelled as `Store.CollectWin` and `Store.ResetAndReload`. That covers the confirm dialog, audio, confetti, modals and new-card generation.

## Findings

| source | as written | input that shows it | evidently intended | confidence | as-written member | corrected member |
|---|---|---|---|---|---|---|
| lib/gameState.ts:163-170 | `getNextWord` (and the page's `words.find`) skips every word already in `collectedWords` by value, while `totalWords` counts repeated words | the message "you and you": after "you" and "and" no word is uncollected, so the collection stays at 2 of 3 and the game never completes | the next word is the one at the position after those collected, so every message completes at its last word | high, not executed | GameProgress.RepeatedWordNeverCompletes | GameProgress.InOrderWordsComplete |
| lib/urlEncoder.ts:82-87 | `getWordCount` returns 0 only when decoding yields `null` or `""`; a token decoding to white space gives `"".split(/\s+/)`, of length 1 | the token "IA" (the single space " "), which `isValidEncodedMessage` rejects, counts 1 word | 0 for every token that is not a valid message, as its documentation says | high, not executed | UrlEncoder.BlankTokenCountsOneWord | UrlEncoder.WordCount |
