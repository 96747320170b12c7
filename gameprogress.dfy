/** The progress store of lib/gameState.ts: per message token, the words the
    player has collected so far, kept in `localStorage` under a prefixed key.
    `localStorage` is the `storage` map of a `Store` object; what it holds under
    a key is either a record that parses to a `GameState` or something that
    `loadGameState` rejects (corrupt JSON, or no `collectedWords` array). */
module GameProgress {
  import opened Wrappers

  const STORAGE_PREFIX := "valentine_scratcher_"

  datatype GameState = GameState(
    collectedWords: seq<string>,
    totalWords: int,
    isComplete: bool,
    encodedMessage: string)

  datatype StoredValue = Record(state: GameState) | Unreadable

  /** `getStorageKey`: the prefix followed by the token, so that the token can
      be read back from the key. */
  function StorageKey(encodedMessage: string): (k: string)
    ensures |k| == |STORAGE_PREFIX| + |encodedMessage|
    ensures k[..|STORAGE_PREFIX|] == STORAGE_PREFIX && k[|STORAGE_PREFIX|..] == encodedMessage
  {
    STORAGE_PREFIX + encodedMessage
  }

  /** Distinct tokens never share a record. */
  lemma StorageKeyInjective(a: string, b: string)
    ensures StorageKey(a) == StorageKey(b) <==> a == b
  {
    if StorageKey(a) == StorageKey(b) {
      assert a == StorageKey(a)[|STORAGE_PREFIX|..];
    }
  }

  /** `initializeGameState`: nothing collected and not complete. */
  function InitializeGameState(encodedMessage: string, totalWords: int): (s: GameState)
    ensures s.collectedWords == [] && !s.isComplete
    ensures s.totalWords == totalWords && s.encodedMessage == encodedMessage
  {
    GameState([], totalWords, false, encodedMessage)
  }

  /** `hasWord`. */
  predicate HasWord(state: GameState, word: string) {
    word in state.collectedWords
  }

  /** The state `addWord` builds and returns: the word appended, the other
      fields copied, and `isComplete` switched on once the collection reaches
      `totalWords`; it is never switched off. */
  function AddedWord(state: GameState, word: string): (r: GameState)
    ensures r.collectedWords == state.collectedWords + [word]
    ensures r.totalWords == state.totalWords && r.encodedMessage == state.encodedMessage
    ensures r.isComplete <==> state.isComplete || |state.collectedWords| + 1 >= state.totalWords
    ensures state.isComplete ==> r.isComplete
  {
    var next := state.(collectedWords := state.collectedWords + [word]);
    if |next.collectedWords| >= next.totalWords then next.(isComplete := true) else next
  }

  /** A fresh state has no word, and `addWord` adds exactly its word to what
      `hasWord` reports. */
  lemma HasWordTracksAdds(encodedMessage: string, totalWords: int, state: GameState, added: string, word: string)
    ensures !HasWord(InitializeGameState(encodedMessage, totalWords), word)
    ensures HasWord(AddedWord(state, added), word) <==> HasWord(state, word) || word == added
  {
    assert AddedWord(state, added).collectedWords == state.collectedWords + [added];
  }

  /** Position of the first word of `words` that `state` has not collected, or
      `|words|` when all of them are collected. */
  function FirstUncollected(words: seq<string>, state: GameState): (i: nat)
    ensures i <= |words|
  {
    if words == [] then 0
    else if !HasWord(state, words[0]) then 0
    else 1 + FirstUncollected(words[1..], state)
  }

  /** Every word before `FirstUncollected` is collected, and the word at it
      is not. */
  lemma {:induction false} FirstUncollectedSpec(words: seq<string>, state: GameState)
    ensures var i := FirstUncollected(words, state);
      && (forall j :: 0 <= j < i ==> HasWord(state, words[j]))
      && (i < |words| ==> !HasWord(state, words[i]))
  {
    if words != [] && HasWord(state, words[0]) {
      FirstUncollectedSpec(words[1..], state);
      var i := FirstUncollected(words, state);
      forall j | 0 <= j < i
        ensures HasWord(state, words[j])
      {
        if j > 0 {
          assert words[j] == words[1..][j - 1];
        }
      }
    }
  }

  /** What `getNextWord` returns: the first word, in message order, not yet
      collected; `None` exactly when every word is collected. */
  function NextWord(words: seq<string>, state: GameState): Option<string> {
    var i := FirstUncollected(words, state);
    if i < |words| then Some(words[i]) else None
  }

  /** `NextWord` is an uncollected word of the message, every word before it
      is collected, and there is none exactly when every word is collected. */
  lemma NextWordSpec(words: seq<string>, state: GameState)
    ensures NextWord(words, state).None? <==> forall j :: 0 <= j < |words| ==> HasWord(state, words[j])
    ensures NextWord(words, state).Some? ==>
      exists i :: 0 <= i < |words| && words[i] == NextWord(words, state).value
        && !HasWord(state, words[i]) && forall j :: 0 <= j < i ==> HasWord(state, words[j])
  {
    FirstUncollectedSpec(words, state);
    var i := FirstUncollected(words, state);
    if i < |words| {
      assert words[i] == NextWord(words, state).value;
    }
  }

  /** `FirstUncollected` is the only position with every earlier word
      collected and its own word not. */
  lemma {:induction false} FirstUncollectedUnique(words: seq<string>, state: GameState, i: nat)
    requires i <= |words|
    requires forall j :: 0 <= j < i ==> HasWord(state, words[j])
    requires i < |words| ==> !HasWord(state, words[i])
    ensures FirstUncollected(words, state) == i
  {
    if i > 0 {
      assert HasWord(state, words[0]);
      assert forall j :: 0 <= j < i - 1 ==> words[1..][j] == words[j + 1];
      FirstUncollectedUnique(words[1..], state, i - 1);
    }
  }

  /** `getNextWord`: scan the words in order and return the first one not yet
      collected. */
  method GetNextWord(words: seq<string>, state: GameState) returns (r: Option<string>)
    ensures r == NextWord(words, state)
  {
    for i := 0 to |words|
      invariant forall j :: 0 <= j < i ==> HasWord(state, words[j])
    {
      if !HasWord(state, words[i]) {
        FirstUncollectedUnique(words, state, i);
        return Some(words[i]);
      }
    }
    FirstUncollectedUnique(words, state, |words|);
    return None;
  }

  /** The browser's `localStorage`, restricted to what the game keeps there. */
  class Store {
    var storage: map<string, StoredValue>

    constructor(initial: map<string, StoredValue>)
      ensures storage == initial
    {
      storage := initial;
    }

    /** Every readable record sits under the key of its own token, as
        `saveGameState` writes it. */
    ghost predicate Valid()
      reads this
    {
      forall k :: k in storage && storage[k].Record? ==> k == StorageKey(storage[k].state.encodedMessage)
    }

    /** `loadGameState`: the record under the token's key, or `None` when there
        is none or it cannot be read as a game state. */
    function LoadGameState(encodedMessage: string): (r: Option<GameState>)
      reads this
      ensures r.Some? <==> StorageKey(encodedMessage) in storage && storage[StorageKey(encodedMessage)].Record?
      ensures r.Some? ==> r.value == storage[StorageKey(encodedMessage)].state
      ensures Valid() && r.Some? ==> r.value.encodedMessage == encodedMessage
    {
      var key := StorageKey(encodedMessage);
      if key in storage && storage[key].Record? then
        StorageKeyInjective(encodedMessage, storage[key].state.encodedMessage);
        Some(storage[key].state)
      else None
    }

    /** `saveGameState`: write the state under its own token's key. */
    method SaveGameState(state: GameState)
      modifies this
      ensures storage == old(storage)[StorageKey(state.encodedMessage) := Record(state)]
      ensures LoadGameState(state.encodedMessage) == Some(state)
      ensures old(Valid()) ==> Valid()
    {
      storage := storage[StorageKey(state.encodedMessage) := Record(state)];
    }

    /** `addWord`: build the extended state, mark it complete when the
        collection is full, store it under its key and return it; no other key
        changes and the caller's state is a value, so it is not touched. */
    method AddWord(state: GameState, word: string) returns (r: GameState)
      modifies this
      ensures r == AddedWord(state, word)
      ensures storage == old(storage)[StorageKey(state.encodedMessage) := Record(r)]
      ensures forall k :: k in old(storage) && k != StorageKey(state.encodedMessage) ==> k in storage && storage[k] == old(storage)[k]
      ensures old(Valid()) ==> Valid()
    {
      var newState := state.(collectedWords := state.collectedWords + [word]);
      if |newState.collectedWords| >= newState.totalWords {
        newState := newState.(isComplete := true);
      }
      SaveGameState(newState);
      r := newState;
    }

    /** `resetGameState`: remove the token's key and nothing else. */
    method ResetGameState(encodedMessage: string)
      modifies this
      ensures storage == old(storage) - {StorageKey(encodedMessage)}
      ensures LoadGameState(encodedMessage).None?
      ensures old(Valid()) ==> Valid()
    {
      storage := storage - {StorageKey(encodedMessage)};
    }

    /** `getOrCreateGameState`: with no readable record, store and return a
        fresh one; with a record whose `totalWords` differs, change only
        `totalWords` and store it again; otherwise return the record as is. */
    method GetOrCreateGameState(encodedMessage: string, totalWords: int) returns (r: GameState)
      modifies this
      ensures old(LoadGameState(encodedMessage)).None? ==>
        r == InitializeGameState(encodedMessage, totalWords)
        && storage == old(storage)[StorageKey(encodedMessage) := Record(r)]
      ensures old(LoadGameState(encodedMessage)).Some? ==>
        var existing := old(LoadGameState(encodedMessage)).value;
        && r == existing.(totalWords := totalWords)
        && (existing.totalWords == totalWords ==> storage == old(storage))
        && (existing.totalWords != totalWords ==> storage == old(storage)[StorageKey(existing.encodedMessage) := Record(r)])
      ensures r.totalWords == totalWords
      ensures old(Valid()) ==> Valid() && LoadGameState(encodedMessage) == Some(r)
    {
      var existing := LoadGameState(encodedMessage);
      if existing.Some? {
        var state := existing.value;
        if state.totalWords != totalWords {
          state := state.(totalWords := totalWords);
          SaveGameState(state);
        }
        return state;
      }
      var newState := InitializeGameState(encodedMessage, totalWords);
      SaveGameState(newState);
      return newState;
    }

    /** The game page's handling of a winning card: collect the next word, if
        there is one and it is not empty (`if (nextWord)`). One call is one
        step of `AfterWins`. */
    method CollectWin(words: seq<string>, state: GameState) returns (r: GameState)
      modifies this
      ensures r == AfterWins(words, state, 1)
      ensures NextWord(words, state).None? || NextWord(words, state).value == "" ==> storage == old(storage)
      ensures NextWord(words, state).Some? && NextWord(words, state).value != "" ==>
        storage == old(storage)[StorageKey(state.encodedMessage) := Record(r)]
      ensures old(Valid()) ==> Valid()
    {
      var next := GetNextWord(words, state);
      if next.Some? && next.value != "" {
        r := AddWord(state, next.value);
      } else {
        r := state;
      }
    }

    /** The store side of the game page's reset action: after removing the
        token's record, loading it again yields a fresh state. */
    method ResetAndReload(encodedMessage: string, totalWords: int) returns (r: GameState)
      modifies this
      ensures r == InitializeGameState(encodedMessage, totalWords)
      ensures storage == (old(storage) - {StorageKey(encodedMessage)})[StorageKey(encodedMessage) := Record(r)]
    {
      ResetGameState(encodedMessage);
      r := GetOrCreateGameState(encodedMessage, totalWords);
    }
  }

  // The game's progress over a run of won cards, composed from the pieces
  // above: each win collects the next word, if there is one.

  predicate Distinct(words: seq<string>) {
    forall i, j :: 0 <= i < j < |words| ==> words[i] != words[j]
  }

  /** One won card: the chosen next word is added unless there is none or it
      is the empty string, which the page's `if (nextWord)` also skips. */
  function Collect(state: GameState, next: Option<string>): GameState {
    match next
    case None => state
    case Some(w) => if w == "" then state else AddedWord(state, w)
  }

  /** The words of a message are never empty. */
  predicate NonEmptyWords(words: seq<string>) {
    forall k :: 0 <= k < |words| ==> words[k] != ""
  }

  /** The state after `k` won cards when each win collects `NextWord`. */
  function AfterWins(words: seq<string>, state: GameState, k: nat): GameState {
    if k == 0 then state
    else
      var prev := AfterWins(words, state, k - 1);
      Collect(prev, NextWord(words, prev))
  }

  /** When the collection is a proper prefix of a message without repeated
      words, `getNextWord` picks the word right after that prefix. */
  lemma PrefixNextWord(words: seq<string>, state: GameState)
    requires Distinct(words)
    requires |state.collectedWords| <= |words| && state.collectedWords == words[..|state.collectedWords|]
    ensures FirstUncollected(words, state) == |state.collectedWords|
  {
    var n := |state.collectedWords|;
    forall j | 0 <= j < n
      ensures HasWord(state, words[j])
    {
      assert state.collectedWords[j] == words[j];
    }
    if n < |words| {
      forall j | 0 <= j < n
        ensures state.collectedWords[j] != words[n]
      {
        assert state.collectedWords[j] == words[j];
      }
    }
    FirstUncollectedUnique(words, state, n);
  }

  /** For a message whose words are all different, the words are collected in
      message order and the game completes exactly at the last one. */
  lemma {:induction false} DistinctWordsComplete(words: seq<string>, encodedMessage: string, k: nat)
    requires Distinct(words) && NonEmptyWords(words) && 1 <= |words| && k <= |words|
    ensures var s := AfterWins(words, InitializeGameState(encodedMessage, |words|), k);
      s.collectedWords == words[..k] && s.totalWords == |words| && (s.isComplete <==> k == |words|)
  {
    if k > 0 {
      var init := InitializeGameState(encodedMessage, |words|);
      var prev := AfterWins(words, init, k - 1);
      DistinctWordsComplete(words, encodedMessage, k - 1);
      PrefixNextWord(words, prev);
      CollectInOrder(words, prev, k - 1);
    }
  }

  /** Collecting word `n` after the first `n` words gives the first `n + 1`. */
  lemma CollectInOrder(words: seq<string>, prev: GameState, n: nat)
    requires n < |words| && prev.collectedWords == words[..n] && prev.totalWords == |words|
    requires !prev.isComplete
    ensures var s := AddedWord(prev, words[n]);
      s.collectedWords == words[..n + 1] && s.totalWords == |words| && (s.isComplete <==> n + 1 == |words|)
  {
    assert words[..n + 1] == words[..n] + [words[n]];
  }

  /** A message that repeats a word never completes under `getNextWord`:
      for "you and you" the third win finds every word already collected, and
      the collection stays at two of three words. */
  lemma {:induction false} RepeatedWordNeverCompletes(encodedMessage: string, k: nat)
    ensures var s := AfterWins(["you", "and", "you"], InitializeGameState(encodedMessage, 3), k);
      !s.isComplete && (k >= 2 ==> s.collectedWords == ["you", "and"])
  {
    var words := ["you", "and", "you"];
    var init := InitializeGameState(encodedMessage, 3);
    if k == 1 {
      assert FirstUncollected(words, init) == 0;
    } else if k == 2 {
      var one := AfterWins(words, init, 1);
      RepeatedWordNeverCompletes(encodedMessage, 1);
      assert one.collectedWords == ["you"] by {
        assert FirstUncollected(words, init) == 0;
      }
      assert HasWord(one, "you") && !HasWord(one, "and");
      assert FirstUncollected(words, one) == 1;
    } else if k > 2 {
      RepeatedWordNeverCompletes(encodedMessage, k - 1);
      var prev := AfterWins(words, init, k - 1);
      assert HasWord(prev, "you") && HasWord(prev, "and");
      FirstUncollectedUnique(words, prev, 3);
    }
  }

  /** The next word to reveal, counted by position: the word at the first
      position of the message not yet revealed. Unlike `NextWord`, it steps
      over a repeated word only as many times as it was collected. */
  function NextWordInOrder(words: seq<string>, state: GameState): (r: Option<string>)
    ensures r.None? <==> |state.collectedWords| >= |words|
    ensures r.Some? ==> r.value == words[|state.collectedWords|]
  {
    var n := |state.collectedWords|;
    if n < |words| then Some(words[n]) else None
  }

  function AfterWinsInOrder(words: seq<string>, state: GameState, k: nat): GameState {
    if k == 0 then state
    else
      var prev := AfterWinsInOrder(words, state, k - 1);
      Collect(prev, NextWordInOrder(words, prev))
  }

  /** With next words taken by position, every message of at least one word,
      repeated words included, is collected in order and completes exactly at
      its last word. */
  lemma {:induction false} InOrderWordsComplete(words: seq<string>, encodedMessage: string, k: nat)
    requires NonEmptyWords(words) && 1 <= |words| && k <= |words|
    ensures var s := AfterWinsInOrder(words, InitializeGameState(encodedMessage, |words|), k);
      s.collectedWords == words[..k] && s.totalWords == |words| && (s.isComplete <==> k == |words|)
  {
    if k > 0 {
      InOrderWordsComplete(words, encodedMessage, k - 1);
      assert words[..k] == words[..k - 1] + [words[k - 1]];
    }
  }

  /** On a message without repeated words and a collection that is a prefix
      of it, the positional choice is the choice `getNextWord` makes. */
  lemma InOrderAgreesOnDistinctWords(words: seq<string>, state: GameState)
    requires Distinct(words)
    requires |state.collectedWords| <= |words| && state.collectedWords == words[..|state.collectedWords|]
    ensures NextWordInOrder(words, state) == NextWord(words, state)
  {
    PrefixNextWord(words, state);
  }
}
