/** Case-insensitive duplicate detection: a count of each term's key, then
    a flag on every card whose key occurs more than once. */
module Duplicates {
  import opened Text
  import opened Records

  /** A card of the deck: a record together with its duplicate flag. */
  datatype Flashcard = Flashcard(term: string, definition: string, isDuplicate: bool)

  /** The key a term is counted under: trimmed, then lower-cased. */
  function Key(term: string): string {
    Lower(Trim(term))
  }

  /** The key of every record, in order. */
  function Keys(cards: seq<Entry>): (ks: seq<string>)
    ensures |ks| == |cards|
    ensures forall i :: 0 <= i < |cards| ==> ks[i] == Key(cards[i].term)
  {
    seq(|cards|, i requires 0 <= i < |cards| => Key(cards[i].term))
  }

  /** How many times `k` occurs in `ks`. */
  function Count(ks: seq<string>, k: string): nat
    decreases |ks|
  {
    if ks == [] then 0
    else Count(ks[..|ks| - 1], k) + (if ks[|ks| - 1] == k then 1 else 0)
  }

  /** The table of key counts: a blank key is never counted, and every
      other key that occurs is mapped to its number of occurrences. */
  function Tally(ks: seq<string>): (m: map<string, nat>)
    ensures forall k :: k in m <==> k != "" && Count(ks, k) > 0
    ensures forall k :: k in m ==> m[k] == Count(ks, k)
    decreases |ks|
  {
    if ks == [] then map[]
    else
      var m := Tally(ks[..|ks| - 1]);
      var k := ks[|ks| - 1];
      if k == "" then m else m[k := (if k in m then m[k] else 0) + 1]
  }

  /** `Tally` of one more key. */
  lemma TallyStep(ks: seq<string>, i: nat)
    requires i < |ks|
    ensures Tally(ks[..i + 1]) ==
      var m := Tally(ks[..i]);
      if ks[i] == "" then m else m[ks[i] := (if ks[i] in m then m[ks[i]] else 0) + 1]
  {
    assert ks[..i + 1][..i] == ks[..i];
  }

  function TermCounts(cards: seq<Entry>): map<string, nat> {
    Tally(Keys(cards))
  }

  /** The counting loop, one record at a time. */
  method BuildTermCounts(cards: seq<Entry>) returns (counts: map<string, nat>)
    ensures counts == TermCounts(cards)
  {
    counts := map[];
    ghost var ks := Keys(cards);
    var i := 0;
    while i < |cards|
      invariant 0 <= i <= |cards|
      invariant counts == Tally(ks[..i])
    {
      var key := Key(cards[i].term);
      assert key == ks[i];
      TallyStep(ks, i);
      if key != "" {
        counts := counts[key := (if key in counts then counts[key] else 0) + 1];
      }
      i := i + 1;
    }
    assert ks[..|cards|] == ks;
  }

  /** Copies every record into a card, flagged when its key is counted more
      than once in `counts`. */
  function Tag(cards: seq<Entry>, counts: map<string, nat>): (r: seq<Flashcard>)
    ensures |r| == |cards|
    ensures forall i :: 0 <= i < |cards| ==>
      r[i].term == cards[i].term && r[i].definition == cards[i].definition
  {
    seq(|cards|, i requires 0 <= i < |cards| =>
      var k := Key(cards[i].term);
      Flashcard(cards[i].term, cards[i].definition, k in counts && counts[k] > 1))
  }

  function TagDuplicates(cards: seq<Entry>): (r: seq<Flashcard>)
    ensures |r| == |cards|
  {
    Tag(cards, TermCounts(cards))
  }

  /** Every flag tells the truth: a card is flagged exactly when its key is
      not blank and some other card of the deck has the same key. */
  predicate FlagsTruthful(deck: seq<Flashcard>) {
    forall i :: 0 <= i < |deck| ==>
      (deck[i].isDuplicate <==>
        Key(deck[i].term) != "" &&
        exists j :: 0 <= j < |deck| && j != i && Key(deck[j].term) == Key(deck[i].term))
  }
}

/** The counting and tagging proved against the meaning of "duplicate". */
module DuplicatesProperties {
  import opened Text
  import opened Records
  import opened Duplicates

  lemma {:induction false} CountConcat(a: seq<string>, b: seq<string>, k: string)
    ensures Count(a + b, k) == Count(a, k) + Count(b, k)
    decreases |b|
  {
    if b == [] {
      assert a + b == a;
    } else {
      var b' := b[..|b| - 1];
      assert (a + b)[..|a + b| - 1] == a + b';
      CountConcat(a, b', k);
    }
  }

  /** A key is counted at least once exactly when it occurs. */
  lemma {:induction false} CountPositive(ks: seq<string>, k: string)
    ensures Count(ks, k) > 0 <==> k in ks
    decreases |ks|
  {
    if ks != [] {
      var p := ks[..|ks| - 1];
      CountPositive(p, k);
      assert ks == p + [ks[|ks| - 1]];
    }
  }

  /** Taking position `i` out lowers the count of its key by one. */
  lemma CountWithout(ks: seq<string>, i: nat)
    requires i < |ks|
    ensures Count(ks, ks[i]) == 1 + Count(ks[..i] + ks[i + 1..], ks[i])
  {
    var k := ks[i];
    assert ks == ks[..i] + ([k] + ks[i + 1..]);
    CountConcat(ks[..i], [k] + ks[i + 1..], k);
    CountConcat([k], ks[i + 1..], k);
    CountConcat(ks[..i], ks[i + 1..], k);
    assert [k][..0] == [];
  }

  /** Removing position `i` keeps every other position: `k` occurs
      elsewhere than at `i` exactly when it occurs in what is left. */
  lemma OccursElsewhere(ks: seq<string>, i: nat, k: string)
    requires i < |ks|
    ensures k in ks[..i] + ks[i + 1..] <==> exists j :: 0 <= j < |ks| && j != i && ks[j] == k
  {
    var rest := ks[..i] + ks[i + 1..];
    if k in rest {
      var j :| 0 <= j < |rest| && rest[j] == k;
      if j < i {
        assert rest[j] == ks[j];
      } else {
        assert rest[j] == ks[j + 1];
      }
    }
    if exists j :: 0 <= j < |ks| && j != i && ks[j] == k {
      var j :| 0 <= j < |ks| && j != i && ks[j] == k;
      if j < i {
        assert rest[j] == ks[j];
      } else {
        assert rest[j - 1] == ks[j];
      }
    }
  }

  /** The key at position `i` is counted more than once exactly when
      another position holds the same key. */
  lemma CountedTwice(ks: seq<string>, i: nat)
    requires i < |ks|
    ensures Count(ks, ks[i]) > 1 <==> exists j :: 0 <= j < |ks| && j != i && ks[j] == ks[i]
  {
    CountWithout(ks, i);
    CountPositive(ks[..i] + ks[i + 1..], ks[i]);
    OccursElsewhere(ks, i, ks[i]);
  }

  /** Tagging keeps every record in place, term and definition unchanged,
      and flags exactly the cards whose key is shared with another card. */
  lemma TagDuplicatesSpec(cards: seq<Entry>)
    ensures |TagDuplicates(cards)| == |cards|
    ensures forall i :: 0 <= i < |cards| ==>
      TagDuplicates(cards)[i].term == cards[i].term &&
      TagDuplicates(cards)[i].definition == cards[i].definition
    ensures FlagsTruthful(TagDuplicates(cards))
  {
    var r := TagDuplicates(cards);
    var ks := Keys(cards);
    forall i | 0 <= i < |r|
      ensures r[i].isDuplicate <==>
        Key(r[i].term) != "" &&
        exists j :: 0 <= j < |r| && j != i && Key(r[j].term) == Key(r[i].term)
    {
      CountedTwice(ks, i);
      if exists j :: 0 <= j < |r| && j != i && Key(r[j].term) == Key(r[i].term) {
        var j :| 0 <= j < |r| && j != i && Key(r[j].term) == Key(r[i].term);
        assert ks[j] == ks[i];
      }
      if exists j :: 0 <= j < |ks| && j != i && ks[j] == ks[i] {
        var j :| 0 <= j < |ks| && j != i && ks[j] == ks[i];
        assert Key(r[j].term) == Key(r[i].term);
      }
    }
  }

  lemma KeyOfCapital()
    ensures Key("Cat") == "cat"
  {
    TrimOfNoWhitespace("Cat");
    assert Lower("Cat") == "cat";
  }

  lemma KeyOfPadded()
    ensures Key(" cat") == "cat"
  {
    TrimPieces(" cat", 1, 4);
    assert Lower("cat") == "cat";
  }

  lemma KeyOfPlain()
    ensures Key("dog") == "dog"
  {
    TrimOfNoWhitespace("dog");
    assert Lower("dog") == "dog";
  }

  lemma TallyExample()
    ensures Tally(["cat", "dog", "cat"]) == map["cat" := 2, "dog" := 1]
  {
    var ks := ["cat", "dog", "cat"];
    assert ks[..2] == ["cat", "dog"] && ks[..2][..1] == ["cat"] && ks[..2][..1][..0] == [];
  }

  /** Terms that differ only in case or surrounding blanks are duplicates;
      a term met once is not. */
  lemma CaseInsensitiveExample()
    ensures TagDuplicates([Entry("Cat", "a"), Entry("dog", "b"), Entry(" cat", "c")])
      == [Flashcard("Cat", "a", true), Flashcard("dog", "b", false), Flashcard(" cat", "c", true)]
  {
    var cards := [Entry("Cat", "a"), Entry("dog", "b"), Entry(" cat", "c")];
    KeysExample();
    TallyExample();
    TagExample();
  }

  lemma KeysExample()
    ensures Keys([Entry("Cat", "a"), Entry("dog", "b"), Entry(" cat", "c")]) == ["cat", "dog", "cat"]
  {
    KeyOfCapital();
    KeyOfPadded();
    KeyOfPlain();
  }

  lemma TagExample()
    ensures Tag([Entry("Cat", "a"), Entry("dog", "b"), Entry(" cat", "c")], map["cat" := 2, "dog" := 1])
      == [Flashcard("Cat", "a", true), Flashcard("dog", "b", false), Flashcard(" cat", "c", true)]
  {
    KeyOfCapital();
    KeyOfPadded();
    KeyOfPlain();
    TagCatDogCat([Entry("Cat", "a"), Entry("dog", "b"), Entry(" cat", "c")]);
  }

  /** Three cards keyed "cat", "dog", "cat" against the counts of that deck. */
  lemma TagCatDogCat(cards: seq<Entry>)
    requires |cards| == 3
    requires Key(cards[0].term) == "cat" && Key(cards[1].term) == "dog" && Key(cards[2].term) == "cat"
    ensures Tag(cards, map["cat" := 2, "dog" := 1]) == [
      Flashcard(cards[0].term, cards[0].definition, true),
      Flashcard(cards[1].term, cards[1].definition, false),
      Flashcard(cards[2].term, cards[2].definition, true)]
  {
    var m := map["cat" := 2, "dog" := 1];
    assert "cat" in m && m["cat"] == 2 && "dog" in m && m["dog"] == 1;
    var t := Tag(cards, m);
    assert t[0] == Flashcard(cards[0].term, cards[0].definition, true);
    assert t[1] == Flashcard(cards[1].term, cards[1].definition, false);
    assert t[2] == Flashcard(cards[2].term, cards[2].definition, true);
    ThreeElements(t);
  }

  lemma ThreeElements<T>(t: seq<T>)
    requires |t| == 3
    ensures t == [t[0], t[1], t[2]]
  {
  }
}

/** The counting table exactly as the script builds it: a plain JavaScript
    object literal, which already answers the keys it inherits from
    `Object.prototype`.  After lower-casing, the only inherited names a key
    can hit are "constructor" and "__proto__". */
module DuplicatesAsWritten {
  import opened Text
  import opened Records
  import opened Duplicates

  /** The values a lookup in the table can produce here. */
  datatype JsValue =
    | Undefined
    | Number(n: int)
    | NotANumber
    | Text(s: string)           // a string, only ever built from a function's or object's text
    | ObjectFunction            // the inherited `constructor`, the function `Object`
    | ObjectPrototype           // the inherited `__proto__`, `Object.prototype`

  /** `counts[key]`: an own property, else an inherited one, else undefined. */
  function Lookup(counts: map<string, JsValue>, key: string): (v: JsValue)
    ensures key !in counts && key != "constructor" && key != "__proto__" ==> v == Undefined
  {
    if key in counts then counts[key]
    else if key == "constructor" then ObjectFunction
    else if key == "__proto__" then ObjectPrototype
    else Undefined
  }

  /** `v || 0`. */
  function OrZero(v: JsValue): JsValue {
    match v
    case Undefined => Number(0)
    case NotANumber => Number(0)
    case Number(n) => if n == 0 then Number(0) else v
    case Text(s) => if s == "" then Number(0) else v
    case _ => v
  }

  /** `v + 1`: numbers add, anything else is converted to text and gets "1"
      appended. */
  function PlusOne(v: JsValue): JsValue {
    match v
    case Undefined => NotANumber
    case NotANumber => NotANumber
    case Number(n) => Number(n + 1)
    case Text(s) => Text(s + "1")
    case ObjectFunction => Text("function Object() { [native code] }1")
    case ObjectPrototype => Text("[object Object]1")
  }

  /** `counts[key] = v` for a value that is not an object: assigning such a
      value to `__proto__` goes to the inherited setter, which ignores it. */
  function Store(counts: map<string, JsValue>, key: string, v: JsValue): map<string, JsValue> {
    if key == "__proto__" then counts else counts[key := v]
  }

  /** `v > 1`: strings and objects that do not read as numbers compare as
      NaN, and NaN is never greater than 1. */
  predicate GreaterThanOne(v: JsValue) {
    v.Number? && v.n > 1
  }

  function JsTally(ks: seq<string>): map<string, JsValue>
    decreases |ks|
  {
    if ks == [] then map[]
    else
      var m := JsTally(ks[..|ks| - 1]);
      var k := ks[|ks| - 1];
      if k == "" then m else Store(m, k, PlusOne(OrZero(Lookup(m, k))))
  }

  function TagDuplicatesAsWritten(cards: seq<Entry>): (r: seq<Flashcard>)
    ensures |r| == |cards|
  {
    var counts := JsTally(Keys(cards));
    seq(|cards|, i requires 0 <= i < |cards| =>
      Flashcard(cards[i].term, cards[i].definition, GreaterThanOne(Lookup(counts, Key(cards[i].term)))))
  }

  /** For every key other than the two inherited names, the object holds
      exactly the count the corrected table holds. */
  lemma {:induction false} JsTallyAgrees(ks: seq<string>, k: string)
    requires k != "constructor" && k != "__proto__"
    ensures Lookup(JsTally(ks), k) == if k in Tally(ks) then Number(Tally(ks)[k]) else Undefined
    decreases |ks|
  {
    if ks != [] {
      JsTallyAgrees(ks[..|ks| - 1], k);
    }
  }

  /** Wherever a card's key is not one of the two inherited names, the
      script's flag equals the corrected flag. */
  lemma AsWrittenAgrees(cards: seq<Entry>, i: nat)
    requires i < |cards|
    requires Key(cards[i].term) != "constructor" && Key(cards[i].term) != "__proto__"
    ensures TagDuplicatesAsWritten(cards)[i] == TagDuplicates(cards)[i]
  {
    JsTallyAgrees(Keys(cards), Key(cards[i].term));
  }

  /** Once `constructor` has been counted, its entry is text: never greater
      than 1, however often the key occurs. */
  lemma {:induction false} ConstructorIsText(ks: seq<string>)
    requires "constructor" in ks
    ensures Lookup(JsTally(ks), "constructor").Text? && Lookup(JsTally(ks), "constructor").s != ""
    decreases |ks|
  {
    var p := ks[..|ks| - 1];
    if "constructor" in p {
      ConstructorIsText(p);
    } else {
      assert ks[|ks| - 1] == "constructor" by {
        assert ks == p + [ks[|ks| - 1]];
      }
      assert "constructor" !in JsTally(p) by {
        NeverStored(p, "constructor");
      }
    }
  }

  /** A key that never occurs has no own property. */
  lemma {:induction false} NeverStored(ks: seq<string>, k: string)
    requires k !in ks
    ensures k !in JsTally(ks)
    decreases |ks|
  {
    if ks != [] {
      NeverStored(ks[..|ks| - 1], k);
    }
  }

  /** `__proto__` never becomes an own property, so its lookup is always the
      inherited prototype object, which is never greater than 1. */
  lemma {:induction false} ProtoNeverStored(ks: seq<string>)
    ensures "__proto__" !in JsTally(ks)
    decreases |ks|
  {
    if ks != [] {
      ProtoNeverStored(ks[..|ks| - 1]);
    }
  }

  lemma KeyOfConstructor()
    ensures Key("constructor") == "constructor" && Key("Constructor") == "constructor"
  {
    ConstructorPieces();
    ConstructorSpelling('c');
    ConstructorSpelling('C');
  }

  lemma ConstructorPieces()
    ensures "constructor" == ['c'] + "onstructor" && "Constructor" == ['C'] + "onstructor"
  {
  }

  /** Either spelling has no whitespace and lower-cases to "constructor". */
  lemma ConstructorSpelling(c: char)
    requires c == 'c' || c == 'C'
    ensures Key([c] + "onstructor") == "constructor"
  {
    var tail := "onstructor";
    LowerOfLowercase(tail);
    NoWhitespaceCons(c, tail);
    TrimOfNoWhitespace([c] + tail);
    LowerConcat([c], tail);
    assert Lower([c]) == ['c'];
    assert ['c'] + tail == "constructor";
  }

  lemma NoWhitespaceCons(c: char, t: string)
    requires !IsWhitespace(c) && !HasWhitespace(t)
    ensures !HasWhitespace([c] + t)
  {
    forall i | 0 <= i < |[c] + t|
      ensures !IsWhitespace(([c] + t)[i])
    {
      if i > 0 {
        assert ([c] + t)[i] == t[i - 1];
      }
    }
  }

  /** A card whose key is "constructor" is never flagged by the script. */
  lemma ConstructorNeverFlagged(cards: seq<Entry>, i: nat)
    requires i < |cards| && Key(cards[i].term) == "constructor"
    ensures !TagDuplicatesAsWritten(cards)[i].isDuplicate
  {
    var ks := Keys(cards);
    assert ks[i] == "constructor";
    ConstructorIsText(ks);
  }

  lemma ConstructorTally()
    ensures Tally(["constructor", "constructor"]) == map["constructor" := 2]
  {
    var ks := ["constructor", "constructor"];
    assert ks[..1] == ["constructor"] && ks[..1][..0] == [];
  }

  /** The word "constructor" entered twice, in two spellings: the script
      flags neither card, the corrected tagging flags both. */
  lemma ConstructorMissed()
    ensures var cards := [Entry("constructor", "one who builds"), Entry("Constructor", "a builder")];
      && !TagDuplicatesAsWritten(cards)[0].isDuplicate
      && !TagDuplicatesAsWritten(cards)[1].isDuplicate
      && TagDuplicates(cards)[0].isDuplicate
      && TagDuplicates(cards)[1].isDuplicate
  {
    var cards := [Entry("constructor", "one who builds"), Entry("Constructor", "a builder")];
    KeyOfConstructor();
    TwoConstructors(cards);
  }

  /** Two cards whose keys are both "constructor". */
  lemma TwoConstructors(cards: seq<Entry>)
    requires |cards| == 2 && Key(cards[0].term) == "constructor" && Key(cards[1].term) == "constructor"
    ensures !TagDuplicatesAsWritten(cards)[0].isDuplicate && !TagDuplicatesAsWritten(cards)[1].isDuplicate
    ensures TagDuplicates(cards)[0].isDuplicate && TagDuplicates(cards)[1].isDuplicate
  {
    ConstructorNeverFlagged(cards, 0);
    ConstructorNeverFlagged(cards, 1);
    assert Keys(cards) == ["constructor", "constructor"];
    ConstructorTally();
  }

  /** A card whose key is "__proto__" is never flagged by the script. */
  lemma ProtoMissed(cards: seq<Entry>, i: nat)
    requires i < |cards| && Key(cards[i].term) == "__proto__"
    ensures !TagDuplicatesAsWritten(cards)[i].isDuplicate
  {
    ProtoNeverStored(Keys(cards));
  }
}
