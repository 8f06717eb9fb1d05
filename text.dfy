/** String helpers the script takes from JavaScript: `trim`, `toLowerCase`,
    `includes`, the regular-expression classes `\s`, `\p{L}` and `\p{M}`,
    and an anchored suffix test. Strings are sequences of Unicode scalar values. */
module Text {

  /** JavaScript's `\s` class, which is also the set of characters `trim`
      removes: the ECMAScript WhiteSpace and LineTerminator code points. */
  predicate IsWhitespace(c: char) {
    || c == '\t' || c == '\n' || c == '\U{000B}' || c == '\U{000C}' || c == '\r'
    || c == ' ' || c == '\U{00A0}' || c == '\U{1680}'
    || ('\U{2000}' <= c <= '\U{200A}')
    || c == '\U{2028}' || c == '\U{2029}' || c == '\U{202F}' || c == '\U{205F}'
    || c == '\U{3000}' || c == '\U{FEFF}'
  }

  predicate HasWhitespace(s: string) {
    exists i :: 0 <= i < |s| && IsWhitespace(s[i])
  }

  /** `\p{L}` or `\p{M}`, restricted to the Latin scripts: ASCII letters, the
      Latin-1 letters, Latin Extended-A and -B, the IPA letters and the
      combining diacritical marks. */
  predicate IsLetterOrMark(c: char) {
    || ('a' <= c <= 'z') || ('A' <= c <= 'Z')
    || c == '\U{00AA}' || c == '\U{00B5}' || c == '\U{00BA}'
    || ('\U{00C0}' <= c <= '\U{00D6}') || ('\U{00D8}' <= c <= '\U{00F6}')
    || ('\U{00F8}' <= c <= '\U{02AF}')
    || ('\U{0300}' <= c <= '\U{036F}')
  }

  /** `toLowerCase` on one character, for ASCII and the Latin-1 capitals. */
  function LowerChar(c: char): char
  {
    if 'A' <= c <= 'Z' || ('\U{00C0}' <= c <= '\U{00DE}' && c != '\U{00D7}') then
      (c as int + 32) as char
    else
      c
  }

  function Lower(s: string): (r: string)
    ensures |r| == |s|
    ensures forall i :: 0 <= i < |s| ==> r[i] == LowerChar(s[i])
  {
    seq(|s|, i requires 0 <= i < |s| => LowerChar(s[i]))
  }

  lemma LowerConcat(a: string, b: string)
    ensures Lower(a + b) == Lower(a) + Lower(b)
  {
    assert forall i :: 0 <= i < |a + b| ==> Lower(a + b)[i] == (Lower(a) + Lower(b))[i];
  }

  /** A word of lower-case ASCII letters has no whitespace and is its own
      lower case. */
  lemma LowerOfLowercase(s: string)
    requires forall i :: 0 <= i < |s| ==> 'a' <= s[i] <= 'z'
    ensures !HasWhitespace(s) && Lower(s) == s
  {
    assert forall i :: 0 <= i < |s| ==> Lower(s)[i] == s[i];
  }

  /** Index of the first non-whitespace character, or `|s|`. */
  function Start(s: string): (k: nat)
    ensures k <= |s|
    decreases |s|
  {
    if s != [] && IsWhitespace(s[0]) then 1 + Start(s[1..]) else 0
  }

  lemma {:induction false} StartSpec(s: string)
    ensures forall i :: 0 <= i < Start(s) ==> IsWhitespace(s[i])
    ensures Start(s) < |s| ==> !IsWhitespace(s[Start(s)])
    decreases |s|
  {
    if s != [] && IsWhitespace(s[0]) {
      StartSpec(s[1..]);
    }
  }

  /** One past the index of the last non-whitespace character, or 0. */
  function End(s: string): (k: nat)
    ensures k <= |s|
    decreases |s|
  {
    if s != [] && IsWhitespace(s[|s| - 1]) then End(s[..|s| - 1]) else |s|
  }

  lemma {:induction false} EndSpec(s: string)
    ensures forall i :: End(s) <= i < |s| ==> IsWhitespace(s[i])
    ensures 0 < End(s) ==> !IsWhitespace(s[End(s) - 1])
    decreases |s|
  {
    if s != [] && IsWhitespace(s[|s| - 1]) {
      EndSpec(s[..|s| - 1]);
    }
  }

  /** `String.prototype.trim`: `s` without its leading and trailing whitespace. */
  function Trim(s: string): (r: string)
    ensures r == [] || (!IsWhitespace(r[0]) && !IsWhitespace(r[|r| - 1]))
    ensures |r| <= |s|
  {
    StartSpec(s);
    EndSpec(s);
    if End(s) <= Start(s) then [] else s[Start(s)..End(s)]
  }

  /** The trim of `s` is determined by any split of `s` into a whitespace
      prefix, an infix that neither starts nor ends with whitespace, and a
      whitespace suffix. */
  lemma TrimPieces(s: string, lo: int, hi: int)
    requires 0 <= lo <= hi <= |s|
    requires forall i :: 0 <= i < lo ==> IsWhitespace(s[i])
    requires forall i :: hi <= i < |s| ==> IsWhitespace(s[i])
    requires lo == hi || (!IsWhitespace(s[lo]) && !IsWhitespace(s[hi - 1]))
    ensures Trim(s) == s[lo..hi]
  {
    if lo < hi {
      StartAt(s, lo);
      EndAt(s, hi);
    } else {
      StartAt(s, |s|);
    }
  }

  lemma {:induction false} StartAt(s: string, lo: nat)
    requires lo <= |s|
    requires forall i :: 0 <= i < lo ==> IsWhitespace(s[i])
    requires lo < |s| ==> !IsWhitespace(s[lo])
    ensures Start(s) == lo
    decreases |s|
  {
    if lo > 0 {
      assert IsWhitespace(s[0]);
      StartAt(s[1..], lo - 1);
    }
  }

  lemma {:induction false} EndAt(s: string, hi: nat)
    requires hi <= |s|
    requires forall i :: hi <= i < |s| ==> IsWhitespace(s[i])
    requires 0 < hi ==> !IsWhitespace(s[hi - 1])
    ensures End(s) == hi
    decreases |s|
  {
    if hi < |s| {
      assert IsWhitespace(s[|s| - 1]);
      EndAt(s[..|s| - 1], hi);
    }
  }

  lemma TrimKeepsChars(s: string)
    ensures forall c :: c in Trim(s) ==> c in s
  {
  }

  /** Trimming twice is trimming once. */
  lemma TrimIdempotent(s: string)
    ensures Trim(Trim(s)) == Trim(s)
  {
    var r := Trim(s);
    TrimPieces(r, 0, |r|);
  }

  lemma TrimOfNoWhitespace(s: string)
    requires !HasWhitespace(s)
    ensures Trim(s) == s
  {
    TrimPieces(s, 0, |s|);
  }

  /** Lower-casing maps whitespace to whitespace, letters and marks to
      letters and marks, and every other character to itself. */
  lemma LowerCharClasses(c: char)
    ensures IsWhitespace(LowerChar(c)) <==> IsWhitespace(c)
    ensures IsLetterOrMark(LowerChar(c)) <==> IsLetterOrMark(c)
    ensures !IsLetterOrMark(c) ==> LowerChar(c) == c
    ensures LowerChar(LowerChar(c)) == LowerChar(c)
  {
  }

  lemma {:induction false} StartLower(s: string)
    ensures Start(Lower(s)) == Start(s)
    decreases |s|
  {
    if s != [] {
      LowerCharClasses(s[0]);
      StartLower(s[1..]);
      var t := Lower(s);
      assert t[1..] == Lower(s[1..]);
      assert t[0] == LowerChar(s[0]);
    }
  }

  lemma {:induction false} EndLower(s: string)
    ensures End(Lower(s)) == End(s)
    decreases |s|
  {
    if s != [] {
      var n := |s| - 1;
      var t := Lower(s);
      LowerCharClasses(s[n]);
      LowerPrefix(s, n);
      EndLower(s[..n]);
      EndStep(t);
      EndStep(s);
    }
  }

  lemma LowerPrefix(s: string, n: nat)
    requires n <= |s|
    ensures Lower(s)[..n] == Lower(s[..n])
  {
  }

  lemma EndStep(s: string)
    requires s != []
    ensures End(s) == if IsWhitespace(s[|s| - 1]) then End(s[..|s| - 1]) else |s|
  {
  }

  /** Trimming and lower-casing commute, since lower-casing maps whitespace
      to whitespace and nothing else to whitespace. */
  lemma LowerTrimCommute(s: string)
    ensures Lower(Trim(s)) == Trim(Lower(s))
  {
    StartLower(s);
    EndLower(s);
    if Start(s) < End(s) {
      assert Lower(s)[Start(s)..End(s)] == Lower(s[Start(s)..End(s)]);
    }
  }

  /** `s.includes(t)`. */
  predicate Contains(s: string, t: string) {
    exists i :: 0 <= i <= |s| - |t| && OccursAt(s, t, i)
  }

  predicate OccursAt(s: string, t: string, i: nat) {
    i + |t| <= |s| && s[i..i + |t|] == t
  }

  /** A regular expression `t$`: `s` ends with `t`. */
  predicate EndsWith(s: string, t: string) {
    |t| <= |s| && s[|s| - |t|..] == t
  }
}

module Wrappers {
  /** An optional value: a lookup that found nothing, or what it found. */
  datatype Option<T> = None | Some(value: T)
}
