/** The deck: the array of cards, the cursor on the current card and the
    flip flag, with the in-place Fisher-Yates shuffle, the navigation
    buttons, the flip on a card tap, and the load that fills the deck from
    the CSV text. */
module DeckState {
  import opened Csv
  import opened Records
  import opened Duplicates
  import opened DuplicatesProperties

  /** `s` with the elements at `i` and `j` exchanged. */
  function Swap<T>(s: seq<T>, i: nat, j: nat): (r: seq<T>)
    requires i < |s| && j < |s|
    ensures |r| == |s| && r[i] == s[j] && r[j] == s[i]
    ensures forall k :: 0 <= k < |s| && k != i && k != j ==> r[k] == s[k]
  {
    s[i := s[j]][j := s[i]]
  }

  /** The random draws of one shuffle of `n` cards: for each index `i`, the
      partner `j` it is swapped with, `0 <= j <= i`. */
  predicate ValidPicks(picks: seq<nat>, n: nat) {
    |picks| == n && forall i :: 0 <= i < n ==> picks[i] <= i
  }

  /** The order the shuffle leaves: the last element is swapped with its
      partner, then the rest is shuffled the same way. */
  function FisherYates<T>(s: seq<T>, picks: seq<nat>): (r: seq<T>)
    requires ValidPicks(picks, |s|)
    ensures |r| == |s|
    decreases |s|
  {
    if |s| <= 1 then s
    else
      var n := |s| - 1;
      var t := Swap(s, n, picks[n]);
      FisherYates(t[..n], picks[..n]) + [t[n]]
  }

  /** Every card the loader yields for `text`, tagged, before the shuffle. */
  function LoadedCards(text: string): seq<Flashcard> {
    TagDuplicates(ToRecords(DropHeader(Parse(text))))
  }

  /** The cursor after the Next button of a non-empty deck. */
  function NextIndex(c: int, n: nat): (r: nat)
    requires n > 0 && 0 <= c < n
    ensures r < n
  {
    (c + 1) % n
  }

  /** The cursor after the Back button of a non-empty deck. */
  function BackIndex(c: int, n: nat): (r: nat)
    requires n > 0 && 0 <= c < n
    ensures r < n
  {
    (c - 1 + n) % n
  }

  /** The cursor as a JavaScript number: an index, or NaN once the
      arithmetic has divided by an empty deck's length. */
  datatype Cursor = At(i: int) | NaN

  /** JavaScript's `%` on integers: the remainder takes the sign of the
      dividend, and a zero divisor gives NaN. */
  function JsRemainder(a: int, b: int): (r: Cursor)
    ensures b == 0 <==> r == NaN
    ensures b != 0 && a >= 0 ==> r == At(a % if b > 0 then b else -b)
  {
    if b == 0 then NaN
    else
      var m := if b > 0 then b else -b;
      if a >= 0 then At(a % m) else At(-((-a) % m))
  }

  /** `(currentCard + 1) % flashcards.length` on any cursor and length. */
  function JsNext(c: Cursor, n: nat): Cursor {
    match c
    case NaN => NaN
    case At(i) => JsRemainder(i + 1, n)
  }

  /** `(currentCard - 1 + flashcards.length) % flashcards.length`. */
  function JsBack(c: Cursor, n: nat): Cursor {
    match c
    case NaN => NaN
    case At(i) => JsRemainder(i - 1 + n, n)
  }

  /** `k` presses of Next. */
  function NextTimes(c: int, n: nat, k: nat): (r: nat)
    requires n > 0 && 0 <= c < n
    ensures r < n
  {
    if k == 0 then c else NextIndex(NextTimes(c, n, k - 1), n)
  }

  /** The deck of the page: `flashcards`, `currentCard` and `isFlipped`. */
  class Deck {
    var flashcards: array<Flashcard>
    var currentCard: int
    var isFlipped: bool

    /** The cursor is on a card, or 0 when the deck is empty. */
    predicate Valid()
      reads this
    {
      if flashcards.Length == 0 then currentCard == 0 else 0 <= currentCard < flashcards.Length
    }

    /** The page starts with no cards, the cursor at 0 and the front shown. */
    constructor ()
      ensures flashcards.Length == 0 && currentCard == 0 && !isFlipped
      ensures Valid()
    {
      flashcards := new Flashcard[0];
      currentCard := 0;
      isFlipped := false;
    }

    /** A tap on the card turns it over; the cursor and the cards stay. */
    method Flip()
      modifies this
      ensures isFlipped == !old(isFlipped)
      ensures currentCard == old(currentCard) && flashcards == old(flashcards)
    {
      isFlipped := !isFlipped;
    }

    /** The Next button: the cursor moves one card on, wrapping from the
        last card to the first; the flip flag is kept. */
    method Next()
      requires Valid() && flashcards.Length > 0
      modifies this
      ensures flashcards == old(flashcards) && isFlipped == old(isFlipped)
      ensures currentCard == NextIndex(old(currentCard), flashcards.Length)
      ensures Valid()
    {
      currentCard := (currentCard + 1) % flashcards.Length;
    }

    /** The Back button: the cursor moves one card back, wrapping from the
        first card to the last; the flip flag is kept. */
    method Back()
      requires Valid() && flashcards.Length > 0
      modifies this
      ensures flashcards == old(flashcards) && isFlipped == old(isFlipped)
      ensures currentCard == BackIndex(old(currentCard), flashcards.Length)
      ensures Valid()
    {
      currentCard := (currentCard - 1 + flashcards.Length) % flashcards.Length;
    }

    /** The in-place shuffle, with `picks[i]` standing for the random
        partner drawn for index `i`.  It leaves the order `FisherYates`
        describes; what that order keeps is proved about `FisherYates`. */
    method Shuffle(picks: seq<nat>)
      requires ValidPicks(picks, flashcards.Length)
      modifies flashcards
      ensures flashcards[..] == FisherYates(old(flashcards[..]), picks)
    {
      if flashcards.Length == 0 {
        return;
      }
      ghost var goal := FisherYates(flashcards[..], picks);
      var i := flashcards.Length - 1;
      ShuffleLeftStart(flashcards[..], picks);
      while i > 0
        invariant 0 <= i < flashcards.Length
        invariant goal == ShuffleLeft(flashcards[..], picks, i)
      {
        ShuffleStep(flashcards[..], picks, i);
        Exchange(i, picks[i]);
        i := i - 1;
      }
      ShuffleLeftDone(flashcards[..], picks);
    }

    /** Exchanges the cards at `i` and `j` in place. */
    method Exchange(i: nat, j: nat)
      requires i < flashcards.Length && j < flashcards.Length
      modifies flashcards
      ensures flashcards[..] == Swap(old(flashcards[..]), i, j)
    {
      flashcards[i], flashcards[j] := flashcards[j], flashcards[i];
    }

    /** The load handler: parse the text, drop a header row, build and tag
        the records, put them in a new array and shuffle it.  The cursor
        and the flip flag are left as they were. */
    method Load(text: string, picks: seq<nat>)
      requires ValidPicks(picks, |LoadedCards(text)|)
      modifies this
      ensures fresh(flashcards)
      ensures flashcards[..] == FisherYates(LoadedCards(text), picks)
      ensures FlagsTruthful(flashcards[..])
      ensures currentCard == old(currentCard) && isFlipped == old(isFlipped)
      ensures old(currentCard) == 0 ==> Valid()
    {
      var cards := PrepareCards(text);
      Replace(cards, picks);
      ShuffleKeepsTruthful(cards, picks);
    }

    /** The end of the load handler: the global array becomes a new array
        holding `cards`, which is then shuffled in place. */
    method Replace(cards: seq<Flashcard>, picks: seq<nat>)
      requires ValidPicks(picks, |cards|)
      modifies this
      ensures fresh(flashcards)
      ensures flashcards[..] == FisherYates(cards, picks)
      ensures currentCard == old(currentCard) && isFlipped == old(isFlipped)
    {
      var a := new Flashcard[|cards|](i requires 0 <= i < |cards| => cards[i]);
      assert a[..] == cards;
      flashcards := a;
      Shuffle(picks);
    }
  }

  /** The body of the load handler up to the shuffle: parse, drop a
      header row, build the records, count the keys and tag every card.
      Every flag it sets is truthful. */
  method PrepareCards(text: string) returns (cards: seq<Flashcard>)
    ensures cards == LoadedCards(text)
    ensures FlagsTruthful(cards)
  {
    var rows := ParseCSV(text);
    rows := DropHeader(rows);
    var records := ToRecords(rows);
    var counts := BuildTermCounts(records);
    cards := Tag(records, counts);
    TagDuplicatesSpec(records);
  }

  /** What the shuffle loop still has to produce when index `i` is next:
      the rounds from `i` down applied to `a[..i + 1]`, followed by the
      part of `a` that is already final. */
  function ShuffleLeft<T>(a: seq<T>, picks: seq<nat>, i: nat): (r: seq<T>)
    requires ValidPicks(picks, |a|) && i < |a|
    ensures |r| == |a|
  {
    ValidPicksPrefix(picks, |a|, i + 1);
    FisherYates(a[..i + 1], picks[..i + 1]) + a[i + 1..]
  }

  lemma ValidPicksPrefix(picks: seq<nat>, n: nat, m: nat)
    requires ValidPicks(picks, n) && m <= n
    ensures ValidPicks(picks[..m], m)
  {
  }

  /** Before the loop, everything is still to be done. */
  lemma ShuffleLeftStart<T>(a: seq<T>, picks: seq<nat>)
    requires ValidPicks(picks, |a|) && |a| > 0
    ensures ShuffleLeft(a, picks, |a| - 1) == FisherYates(a, picks)
  {
    assert a[..|a|] == a && picks[..|a|] == picks;
    assert a[|a|..] == [];
    assert FisherYates(a, picks) + [] == FisherYates(a, picks);
  }

  /** At index 0 nothing is left to do. */
  lemma ShuffleLeftDone<T>(a: seq<T>, picks: seq<nat>)
    requires ValidPicks(picks, |a|) && |a| > 0
    ensures ShuffleLeft(a, picks, 0) == a
  {
    assert a[..1] + a[1..] == a;
  }

  /** One round of the loop: swapping index `i` with its partner leaves the
      same order still to be produced, now from index `i - 1`. */
  lemma ShuffleStep<T>(a: seq<T>, picks: seq<nat>, i: nat)
    requires ValidPicks(picks, |a|) && 0 < i < |a|
    ensures ShuffleLeft(a, picks, i) == ShuffleLeft(Swap(a, i, picks[i]), picks, i - 1)
  {
    var t := Swap(a, i, picks[i]);
    ValidPicksPrefix(picks, |a|, i);
    assert Swap(a[..i + 1], i, picks[i]) == t[..i + 1];
    assert t[..i + 1][..i] == t[..i];
    assert picks[..i + 1][..i] == picks[..i];
    assert t[i..] == [t[i]] + a[i + 1..];
  }

  /** A property of decks that no exchange of two cards can change. */
  ghost predicate SwapClosed<T(!new)>(ok: seq<T> -> bool) {
    forall d: seq<T>, x: nat, y: nat :: x < |d| && y < |d| && ok(d) ==> ok(Swap(d, x, y))
  }

  /** Shuffling keeps every property that survives single exchanges. */
  lemma ShuffleKeeps<T(!new)>(ok: seq<T> -> bool, s: seq<T>, picks: seq<nat>)
    requires SwapClosed(ok) && ValidPicks(picks, |s|) && ok(s)
    ensures ok(FisherYates(s, picks))
  {
    if |s| > 0 {
      ShuffleLeftStart(s, picks);
      RoundsKeep(ok, s, picks, |s| - 1);
    }
  }

  /** The rounds of the shuffle loop from index `i` down keep such a
      property. */
  lemma {:induction false} RoundsKeep<T(!new)>(ok: seq<T> -> bool, a: seq<T>, picks: seq<nat>, i: nat)
    requires SwapClosed(ok) && ValidPicks(picks, |a|) && i < |a| && ok(a)
    ensures ok(ShuffleLeft(a, picks, i))
    decreases i
  {
    if i == 0 {
      ShuffleLeftDone(a, picks);
    } else {
      ShuffleStep(a, picks, i);
      RoundsKeep(ok, Swap(a, i, picks[i]), picks, i - 1);
    }
  }

  /** Shuffling keeps every flag truthful. */
  lemma ShuffleKeepsTruthful(s: seq<Flashcard>, picks: seq<nat>)
    requires ValidPicks(picks, |s|)
    ensures FlagsTruthful(s) ==> FlagsTruthful(FisherYates(s, picks))
  {
    var ok := (d: seq<Flashcard>) => FlagsTruthful(d);
    forall d: seq<Flashcard>, x: nat, y: nat | x < |d| && y < |d| && ok(d)
      ensures ok(Swap(d, x, y))
    {
      SwapKeepsTruthful(d, x, y);
    }
    if FlagsTruthful(s) {
      ShuffleKeeps(ok, s, picks);
    }
  }

  /** Exchanging two cards keeps every flag truthful. */
  lemma SwapKeepsTruthful(d: seq<Flashcard>, i: nat, j: nat)
    requires i < |d| && j < |d| && FlagsTruthful(d)
    ensures FlagsTruthful(Swap(d, i, j))
  {
    var e := Swap(d, i, j);
    forall x | 0 <= x < |e|
      ensures e[x].isDuplicate <==>
        Key(e[x].term) != "" &&
        exists y :: 0 <= y < |e| && y != x && Key(e[y].term) == Key(e[x].term)
    {
      SwapKeepsFlag(d, i, j, x);
    }
  }

  lemma SwapKeepsFlag(d: seq<Flashcard>, i: nat, j: nat, x: nat)
    requires i < |d| && j < |d| && x < |d| && FlagsTruthful(d)
    ensures var e := Swap(d, i, j);
      e[x].isDuplicate <==>
        Key(e[x].term) != "" &&
        exists y :: 0 <= y < |e| && y != x && Key(e[y].term) == Key(e[x].term)
  {
    var px := if x == i then j else if x == j then i else x;
    SwapKeepsOthers(d, i, j, x, px);
    SwapFindsOthers(d, i, j, x, px);
  }

  /** Another card with the same key after the swap was one before it. */
  lemma SwapKeepsOthers(d: seq<Flashcard>, i: nat, j: nat, x: nat, px: nat)
    requires i < |d| && j < |d| && x < |d|
    requires px == if x == i then j else if x == j then i else x
    ensures var e := Swap(d, i, j);
      (exists y :: 0 <= y < |e| && y != x && Key(e[y].term) == Key(e[x].term)) ==>
      (exists y :: 0 <= y < |d| && y != px && Key(d[y].term) == Key(d[px].term))
  {
    var e := Swap(d, i, j);
    if exists y :: 0 <= y < |e| && y != x && Key(e[y].term) == Key(e[x].term) {
      var y :| 0 <= y < |e| && y != x && Key(e[y].term) == Key(e[x].term);
      var py := if y == i then j else if y == j then i else y;
      assert e[y] == d[py] && py != px && e[x] == d[px];
    }
  }

  /** Another card with the same key before the swap is one after it. */
  lemma SwapFindsOthers(d: seq<Flashcard>, i: nat, j: nat, x: nat, px: nat)
    requires i < |d| && j < |d| && x < |d|
    requires px == if x == i then j else if x == j then i else x
    ensures var e := Swap(d, i, j);
      e[x] == d[px] &&
      ((exists y :: 0 <= y < |d| && y != px && Key(d[y].term) == Key(d[px].term)) ==>
       (exists y :: 0 <= y < |e| && y != x && Key(e[y].term) == Key(e[x].term)))
  {
    var e := Swap(d, i, j);
    if exists y :: 0 <= y < |d| && y != px && Key(d[y].term) == Key(d[px].term) {
      var y :| 0 <= y < |d| && y != px && Key(d[y].term) == Key(d[px].term);
      var qy := if y == i then j else if y == j then i else y;
      assert e[qy] == d[y] && qy != x && e[x] == d[px];
    }
  }
}

/** What the deck operations promise: the shuffle only reorders and can
    produce every order, the cursor stays on a card, Back undoes Next, a
    full round of Next comes back, and the loaded cards are well formed. */
module DeckProperties {
  import opened Text
  import opened Records
  import opened Duplicates
  import opened DeckState

  lemma SwapMultiset<T>(s: seq<T>, i: nat, j: nat)
    requires i < |s| && j < |s|
    ensures multiset(Swap(s, i, j)) == multiset(s)
  {
  }

  /** The shuffle is a permutation: same length, same multiset of cards. */
  lemma {:induction false} ShufflePermutes<T>(s: seq<T>, picks: seq<nat>)
    requires ValidPicks(picks, |s|)
    ensures |FisherYates(s, picks)| == |s|
    ensures multiset(FisherYates(s, picks)) == multiset(s)
    decreases |s|
  {
    if |s| > 1 {
      var n := |s| - 1;
      var t := Swap(s, n, picks[n]);
      SwapMultiset(s, n, picks[n]);
      ShufflePermutes(t[..n], picks[..n]);
      assert t == t[..n] + [t[n]];
    }
  }

  lemma MultisetSplitLast<T>(s: seq<T>)
    requires |s| > 0
    ensures multiset(s) == multiset(s[..|s| - 1]) + multiset{s[|s| - 1]}
  {
    assert s == s[..|s| - 1] + [s[|s| - 1]];
  }

  /** Drawing `j` for the last index and then `p` for the others yields
      `t` when `j` brings `t`'s last card to the end and `p` orders the
      rest as in `t`. */
  lemma DrawLast<T>(s: seq<T>, t: seq<T>, p: seq<nat>, j: nat) returns (picks: seq<nat>)
    requires |s| > 1 && j < |s| && ValidPicks(p, |s| - 1)
    requires |t| == |s| && s[j] == t[|t| - 1]
    requires FisherYates(Swap(s, |s| - 1, j)[..|s| - 1], p) == t[..|s| - 1]
    ensures picks == p + [j]
    ensures ValidPicks(picks, |s|) && FisherYates(s, picks) == t
  {
    picks := p + [j];
    assert picks[..|s| - 1] == p;
    assert t == t[..|t| - 1] + [t[|t| - 1]];
  }

  /** The partner that brings `t`'s last card to the end of `s`; what is
      left before it holds the same cards as the rest of `t`. */
  lemma PickLast<T>(s: seq<T>, t: seq<T>) returns (j: nat)
    requires multiset(s) == multiset(t) && |s| > 1
    ensures |t| == |s| && j < |s| && s[j] == t[|t| - 1]
    ensures multiset(Swap(s, |s| - 1, j)[..|s| - 1]) == multiset(t[..|s| - 1])
  {
    assert |s| == |multiset(s)| == |multiset(t)| == |t|;
    var n := |s| - 1;
    var x := t[n];
    assert x in multiset(s) by {
      assert x in multiset(t);
    }
    j :| 0 <= j < |s| && s[j] == x;
    var u := Swap(s, n, j);
    SwapMultiset(s, n, j);
    MultisetSplitLast(u);
    MultisetSplitLast(t);
    assert multiset(u[..n]) == multiset(u) - multiset{x};
    assert multiset(t[..n]) == multiset(t) - multiset{x};
  }

  /** With at most one card there is one order, and no draw changes it. */
  lemma ShortReachable<T>(s: seq<T>, t: seq<T>) returns (picks: seq<nat>)
    requires multiset(s) == multiset(t) && |s| <= 1
    ensures ValidPicks(picks, |s|) && FisherYates(s, picks) == t
  {
    picks := seq(|s|, _ => 0);
    assert |s| == |multiset(s)| == |multiset(t)| == |t|;
    if |s| == 1 {
      assert s[0] in multiset(t);
    }
  }

  /** Every order of the cards is the outcome of some draws: the model
      does not rule out any permutation. */
  lemma {:induction false} EveryOrderReachable<T>(s: seq<T>, t: seq<T>) returns (picks: seq<nat>)
    requires multiset(s) == multiset(t)
    ensures ValidPicks(picks, |s|) && FisherYates(s, picks) == t
    decreases |s|
  {
    if |s| <= 1 {
      picks := ShortReachable(s, t);
    } else {
      var j := PickLast(s, t);
      var p := EveryOrderReachable(Swap(s, |s| - 1, j)[..|s| - 1], t[..|s| - 1]);
      picks := DrawLast(s, t, p, j);
    }
  }

  lemma ModSmall(x: int, n: int)
    requires 0 <= x < n
    ensures x % n == x
  {
  }

  lemma ModShift(x: int, n: int)
    requires n <= x < 2 * n
    ensures x % n == x - n
  {
  }

  /** Next moves to the following card, and from the last card to the
      first; Back moves to the preceding card, and from the first card to
      the last. */
  lemma NavigationSteps(c: int, n: nat)
    requires n > 0 && 0 <= c < n
    ensures NextIndex(c, n) == if c == n - 1 then 0 else c + 1
    ensures BackIndex(c, n) == if c == 0 then n - 1 else c - 1
  {
    if c == n - 1 {
      ModShift(c + 1, n);
    } else {
      ModSmall(c + 1, n);
    }
    if c == 0 {
      ModSmall(n - 1, n);
    } else {
      ModShift(c - 1 + n, n);
    }
  }

  /** Back exactly undoes Next, and Next exactly undoes Back. */
  lemma BackUndoesNext(c: int, n: nat)
    requires n > 0 && 0 <= c < n
    ensures BackIndex(NextIndex(c, n), n) == c
    ensures NextIndex(BackIndex(c, n), n) == c
  {
    NavigationSteps(c, n);
    NavigationSteps(NextIndex(c, n), n);
    NavigationSteps(BackIndex(c, n), n);
  }

  /** Up to a full round, `k` presses of Next move the cursor `k` cards
      on, wrapping past the last card once. */
  lemma {:induction false} NextTimesAdds(c: int, n: nat, k: nat)
    requires n > 0 && 0 <= c < n && k <= n
    ensures NextTimes(c, n, k) == if c + k < n then c + k else c + k - n
  {
    if k > 0 {
      NextTimesAdds(c, n, k - 1);
      NavigationSteps(NextTimes(c, n, k - 1), n);
    }
  }

  /** A full round of `n` presses of Next comes back to the same card. */
  lemma FullRound(c: int, n: nat)
    requires n > 0 && 0 <= c < n
    ensures NextTimes(c, n, n) == c
  {
    NextTimesAdds(c, n, n);
  }

  /** On an empty deck the navigation arithmetic gives NaN; on a cursor
      inside a non-empty deck it gives exactly `NextIndex` and `BackIndex`. */
  lemma CursorArithmetic(c: int, n: nat)
    ensures JsNext(At(c), 0) == NaN && JsBack(At(c), 0) == NaN
    ensures n > 0 && 0 <= c < n ==> JsNext(At(c), n) == At(NextIndex(c, n))
    ensures n > 0 && 0 <= c < n ==> JsBack(At(c), n) == At(BackIndex(c, n))
  {
  }

  /** The cards a load yields: no more than the parsed rows, every term
      trimmed and with a non-blank key, every definition trimmed, and every
      flag truthful. */
  lemma LoadedCardsShape(text: string)
    ensures |LoadedCards(text)| <= |Csv.Parse(text)|
    ensures forall k :: 0 <= k < |LoadedCards(text)| ==>
      var c := LoadedCards(text)[k];
      c.term != "" && Trim(c.term) == c.term && Trim(c.definition) == c.definition && Key(c.term) != ""
    ensures FlagsTruthful(LoadedCards(text))
  {
    var records := ToRecords(DropHeader(Csv.Parse(text)));
    DuplicatesProperties.TagDuplicatesSpec(records);
    forall k | 0 <= k < |LoadedCards(text)|
      ensures var c := LoadedCards(text)[k];
        c.term != "" && Trim(c.term) == c.term && Trim(c.definition) == c.definition && Key(c.term) != ""
    {
      LoadedCard(records, k);
    }
  }

  lemma LoadedCard(records: seq<Entry>, k: int)
    requires 0 <= k < |records|
    requires records[k].term != "" && Trim(records[k].term) == records[k].term
    requires Trim(records[k].definition) == records[k].definition
    ensures var c := TagDuplicates(records)[k];
      c.term != "" && Trim(c.term) == c.term && Trim(c.definition) == c.definition && Key(c.term) != ""
  {
    NonBlankKey(records[k].term);
  }

  /** A trimmed non-empty term has a non-empty key. */
  lemma NonBlankKey(t: string)
    requires t != "" && Trim(t) == t
    ensures Key(t) != ""
  {
  }
}
