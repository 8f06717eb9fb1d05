/** Dictionary lookup: the choice between a dictionary's own entry page and
    a site search, the URL templates of the three dictionaries, and the
    choice of the word to look up. */
module Dictionary {
  import opened Wrappers
  import opened Text
  import opened Uri
  import opened Duplicates

  datatype Provider = Cambridge | Oxford | Longman

  /** The host of each dictionary's entry pages. */
  function DirectHost(p: Provider): string {
    match p
    case Cambridge => "dictionary.cambridge.org"
    case Oxford => "www.oxfordlearnersdictionaries.com"
    case Longman => "www.ldoceonline.com"
  }

  /** The path of each dictionary's entry pages, up to the word. */
  function DirectPath(p: Provider): string {
    match p
    case Cambridge => "/dictionary/learner-english/"
    case Oxford => "/definition/english/"
    case Longman => "/dictionary/"
  }

  /** The entry-page templates, up to the encoded word. */
  function DirectPrefix(p: Provider): string {
    "https://" + DirectHost(p) + DirectPath(p)
  }

  /** The site each search is restricted to. */
  function SearchSite(p: Provider): string {
    match p
    case Cambridge => "dictionary.cambridge.org"
    case Oxford => "oxfordlearnersdictionaries.com"
    case Longman => "ldoceonline.com"
  }

  const SearchBase := "https://www.google.com/search?q="

  /** `w.replace(/\s+/g, "-")`: every run of whitespace becomes one hyphen. */
  function HyphenateSpaces(w: string): (r: string)
    ensures !HasWhitespace(r)
    ensures !HasWhitespace(w) ==> r == w
    decreases |w|
  {
    if w == [] then []
    else if IsWhitespace(w[0]) then ['-'] + HyphenateSpaces(w[Start(w)..])
    else [w[0]] + HyphenateSpaces(w[1..])
  }

  /** The entry page of `w`: hyphens for spaces, lower case, encoded. */
  function DirectUrl(p: Provider, w: string): string {
    DirectPrefix(p) + Encode(Lower(HyphenateSpaces(w)))
  }

  /** A site search for the quoted phrase `w`. */
  function SearchUrl(p: Provider, w: string): string {
    SearchBase + Encode("site:" + SearchSite(p) + " \"" + w + "\"")
  }

  /** A character other than a letter, a combining mark or `-`. */
  predicate HasOtherChar(w: string) {
    exists i :: 0 <= i < |w| && !IsLetterOrMark(w[i]) && w[i] != '-'
  }

  /** `/(ing|ed|ies|ied|ers|est|s)$/`. */
  predicate InflectedEnding(lw: string) {
    || EndsWith(lw, "ing") || EndsWith(lw, "ed") || EndsWith(lw, "ies") || EndsWith(lw, "ied")
    || EndsWith(lw, "ers") || EndsWith(lw, "est") || EndsWith(lw, "s")
  }

  /** `/(ss|us|is|as)s$/`: the word ends in sss, uss, iss or ass. */
  predicate ExemptEnding(lw: string) {
    EndsWith(lw, "sss") || EndsWith(lw, "uss") || EndsWith(lw, "iss") || EndsWith(lw, "ass")
  }

  /** The heuristic that sends phrases, words with punctuation and words
      that look inflected to a site search. */
  predicate ShouldUseSearch(word: string) {
    if word == "" then true
    else
      var w := Trim(word);
      if HasWhitespace(w) then true
      else if HasOtherChar(w) then true
      else
        var lw := Lower(w);
        InflectedEnding(lw) && !ExemptEnding(lw)
  }

  /** The URL the lookup button opens for `word` in provider `p`'s dictionary. */
  function BuildDictUrl(p: Provider, word: string): string {
    var clean := Trim(word);
    if ShouldUseSearch(clean) then SearchUrl(p, clean) else DirectUrl(p, clean)
  }

  /** The word the lookup button uses: the trimmed word on display, or else
      the trimmed term of the card under the cursor when the deck has
      cards (a cursor off the deck reads as a card without a term); no
      word when both are blank. */
  function LookupWord(currentWord: string, deck: seq<Flashcard>, cursor: int): (r: Option<string>)
    ensures r.Some? ==> r.value != "" && Trim(r.value) == r.value
  {
    var shown := Trim(currentWord);
    var word :=
      if shown == "" && |deck| > 0 then
        (if 0 <= cursor < |deck| then Trim(deck[cursor].term) else "")
      else shown;
    TrimIdempotentOf(word, currentWord, deck, cursor);
    if word == "" then None else Some(word)
  }

  lemma TrimIdempotentOf(word: string, currentWord: string, deck: seq<Flashcard>, cursor: int)
    requires word == if Trim(currentWord) == "" && |deck| > 0 then
        (if 0 <= cursor < |deck| then Trim(deck[cursor].term) else "")
      else Trim(currentWord)
    ensures Trim(word) == word
  {
    TrimIdempotent(currentWord);
    if 0 <= cursor < |deck| {
      TrimIdempotent(deck[cursor].term);
    }
    TrimOfNoWhitespace("");
  }
}

/** What the lookup promises: which words go to a search, what the two
    kinds of URL look like, and which word is looked up. */
module DictionaryProperties {
  import opened Wrappers
  import opened Text
  import opened Uri
  import opened UriProperties
  import opened Duplicates
  import opened Dictionary

  /** Of the seven endings, "ies", "ied" and "ers" add nothing: a word looks
      inflected exactly when it ends in "s", "ed", "ing" or "est". */
  lemma InflectedEndingReduces(lw: string)
    ensures InflectedEnding(lw) <==>
      EndsWith(lw, "s") || EndsWith(lw, "ed") || EndsWith(lw, "ing") || EndsWith(lw, "est")
  {
    if EndsWith(lw, "ies") || EndsWith(lw, "ers") {
      assert lw[|lw| - 1..] == lw[|lw| - 3..][2..];
    }
    if EndsWith(lw, "ied") {
      assert lw[|lw| - 2..] == lw[|lw| - 3..][1..];
    }
  }

  /** An exempt word ends in "s" and so looks inflected; the exemption is
      the only way a word ending in "s" goes to its entry page. */
  lemma ExemptEndsInS(lw: string)
    requires ExemptEnding(lw)
    ensures EndsWith(lw, "s")
  {
    assert lw[|lw| - 1..] == lw[|lw| - 3..][2..];
  }

  /** A lower-case ASCII word is its own trim and its own lower case, has no
      whitespace and no character other than letters. */
  lemma PlainWord(w: string)
    requires forall i :: 0 <= i < |w| ==> 'a' <= w[i] <= 'z'
    ensures Trim(w) == w && Lower(w) == w
    ensures !HasWhitespace(w) && !HasOtherChar(w)
  {
    TrimOfNoWhitespace(w);
  }

  /** A plain word goes to a search exactly when it looks inflected and is
      not exempt. */
  lemma PlainWordDecision(w: string)
    requires w != "" && forall i :: 0 <= i < |w| ==> 'a' <= w[i] <= 'z'
    ensures ShouldUseSearch(w) <==> InflectedEnding(w) && !ExemptEnding(w)
  {
    PlainWord(w);
  }

  lemma SearchRunning()
    ensures ShouldUseSearch("running")
  {
    PlainWordDecision("running");
    assert "running"[4..] == "ing";
  }

  lemma SearchCats()
    ensures ShouldUseSearch("cats")
  {
    PlainWordDecision("cats");
    assert "cats"[3..] == "s" && "cats"[1..] == "ats";
  }

  lemma SearchBus()
    ensures ShouldUseSearch("bus")
  {
    PlainWordDecision("bus");
    assert "bus"[2..] == "s" && "bus"[0..] == "bus";
  }

  lemma SearchAnalysis()
    ensures ShouldUseSearch("analysis")
  {
    PlainWordDecision("analysis");
    assert "analysis"[7..] == "s" && "analysis"[5..] == "sis";
  }

  lemma DirectDog()
    ensures !ShouldUseSearch("dog")
  {
    PlainWordDecision("dog");
    DogEndings();
  }

  lemma DogEndings()
    ensures !InflectedEnding("dog")
  {
    assert "dog"[2..] == "g" && "dog"[1..] == "og" && "dog"[0..] == "dog";
  }

  lemma DirectClass()
    ensures !ShouldUseSearch("class")
  {
    PlainWordDecision("class");
    assert "class"[2..] == "ass";
  }

  lemma DirectKiss()
    ensures !ShouldUseSearch("kiss")
  {
    PlainWordDecision("kiss");
    assert "kiss"[1..] == "iss";
  }

  lemma DirectDiscuss()
    ensures !ShouldUseSearch("discuss")
  {
    PlainWordDecision("discuss");
    assert "discuss"[4..] == "uss";
  }

  /** Inflected-looking words go to a search, "bus" and "analysis"
      included, since their endings are not among the exempt ones; the
      empty word does too. */
  lemma SearchExamples()
    ensures ShouldUseSearch("running") && ShouldUseSearch("cats")
    ensures ShouldUseSearch("bus") && ShouldUseSearch("analysis")
    ensures ShouldUseSearch("")
  {
    SearchRunning();
    SearchCats();
    SearchBus();
    SearchAnalysis();
  }

  /** Base forms and the exempt endings go to the entry page. */
  lemma DirectExamples()
    ensures !ShouldUseSearch("dog") && !ShouldUseSearch("class")
    ensures !ShouldUseSearch("kiss") && !ShouldUseSearch("discuss")
  {
    DirectDog();
    DirectClass();
    DirectKiss();
    DirectDiscuss();
  }

  /** Two words joined by a space form a phrase, which goes to a search. */
  lemma PhraseGoesToSearch(a: string, b: string)
    requires a != "" && b != "" && !IsWhitespace(a[0]) && !IsWhitespace(b[|b| - 1])
    ensures ShouldUseSearch(a + " " + b)
  {
    var s := a + " " + b;
    assert HasWhitespace(Trim(s)) by {
      TrimPieces(s, 0, |s|);
      assert IsWhitespace(s[|a|]);
    }
    WhitespaceGoesToSearch(s);
  }

  lemma WhitespaceGoesToSearch(w: string)
    requires HasWhitespace(Trim(w))
    ensures ShouldUseSearch(w)
  {
  }

  /** Only whitespace is not the empty word: it trims to "", which has no
      ending, so the heuristic alone would pick the entry page. */
  lemma BlankIsNotEmpty()
    ensures !ShouldUseSearch(" ")
  {
    TrimPieces(" ", 1, 1);
  }

  /** The decision does not depend on the case of the letters. */
  lemma CaseIndependent(word: string)
    ensures ShouldUseSearch(Lower(word)) == ShouldUseSearch(word)
  {
    LowerTrimCommute(word);
    var w := Trim(word);
    LowerKeepsWhitespace(w);
    LowerKeepsOtherChars(w);
    LowerIdempotent(w);
  }

  lemma LowerKeepsWhitespace(w: string)
    ensures HasWhitespace(Lower(w)) == HasWhitespace(w)
  {
    var lw := Lower(w);
    if HasWhitespace(w) {
      var i :| 0 <= i < |w| && IsWhitespace(w[i]);
      LowerCharClasses(w[i]);
      assert IsWhitespace(lw[i]);
    }
    if HasWhitespace(lw) {
      var i :| 0 <= i < |lw| && IsWhitespace(lw[i]);
      LowerCharClasses(w[i]);
      assert IsWhitespace(w[i]);
    }
  }

  lemma LowerKeepsOtherChars(w: string)
    ensures HasOtherChar(Lower(w)) == HasOtherChar(w)
  {
    var lw := Lower(w);
    if HasOtherChar(w) {
      var i :| 0 <= i < |w| && !IsLetterOrMark(w[i]) && w[i] != '-';
      LowerCharClasses(w[i]);
      assert !IsLetterOrMark(lw[i]) && lw[i] != '-';
    }
    if HasOtherChar(lw) {
      var i :| 0 <= i < |lw| && !IsLetterOrMark(lw[i]) && lw[i] != '-';
      LowerCharClasses(w[i]);
      assert !IsLetterOrMark(w[i]) && w[i] != '-';
    }
  }

  lemma LowerIdempotent(w: string)
    ensures Lower(Lower(w)) == Lower(w)
  {
    var lw := Lower(w);
    forall i | 0 <= i < |w| ensures LowerChar(lw[i]) == lw[i] {
      LowerCharClasses(w[i]);
    }
  }

  /** The button opens a site search exactly when the heuristic says so:
      the URL starts with the search address in that case and with the
      dictionary's entry-page address otherwise. */
  lemma UrlKind(p: Provider, word: string)
    ensures ShouldUseSearch(Trim(word)) ==> BuildDictUrl(p, word)[..|SearchBase|] == SearchBase
    ensures !ShouldUseSearch(Trim(word)) ==>
      |BuildDictUrl(p, word)| >= |DirectPrefix(p)| &&
      BuildDictUrl(p, word)[..|DirectPrefix(p)|] == DirectPrefix(p)
    ensures |BuildDictUrl(p, word)| >= |SearchBase| &&
      (BuildDictUrl(p, word)[..|SearchBase|] == SearchBase <==> ShouldUseSearch(Trim(word)))
  {
    var url := BuildDictUrl(p, word);
    var clean := Trim(word);
    if ShouldUseSearch(clean) {
      var q := Encode("site:" + SearchSite(p) + " \"" + clean + "\"");
      assert url == SearchBase + q;
      assert (SearchBase + q)[..|SearchBase|] == SearchBase;
    } else {
      var d := DirectPrefix(p);
      var e := Encode(Lower(HyphenateSpaces(clean)));
      assert url == d + e;
      assert (d + e)[..|d|] == d;
      PrefixesDiffer(p);
      assert url[12] == d[12];
    }
  }

  /** Every entry-page address is at least as long as the search address
      and differs from it at index 12, the first letter of the host name. */
  lemma PrefixesDiffer(p: Provider)
    ensures |DirectPrefix(p)| >= |SearchBase| && DirectPrefix(p)[12] != SearchBase[12]
  {
    SearchBaseLetter();
    PrefixLetter(p);
  }

  lemma SearchBaseLetter()
    ensures |SearchBase| == 32 && SearchBase[12] == 'g'
  {
  }

  lemma PrefixLetter(p: Provider)
    ensures |DirectPrefix(p)| >= 32 && DirectPrefix(p)[12] == DirectHost(p)[4]
    ensures DirectHost(p)[4] != 'g'
  {
    HostLetter(p);
    PrefixIndex(DirectHost(p), DirectPath(p));
  }

  lemma PrefixIndex(h: string, path: string)
    requires |h| >= 19 && |path| >= 12
    ensures |"https://" + h + path| >= 32 && ("https://" + h + path)[12] == h[4]
  {
  }

  lemma HostLetter(p: Provider)
    ensures |DirectHost(p)| >= 19 && DirectHost(p)[4] != 'g' && |DirectPath(p)| >= 12
  {
    match p
    case Cambridge => assert DirectHost(p)[4] == 'i';
    case Oxford => assert DirectHost(p)[4] == 'o';
    case Longman => assert DirectHost(p)[4] == 'l';
  }

  /** On the entry-page path the word has no whitespace, so the hyphen
      replacement changes nothing: the URL is the prefix followed by the
      encoded lower-case word, and the encoded part holds only unreserved
      characters and `%`, so it stays one path segment. */
  lemma DirectUrlShape(p: Provider, word: string)
    requires !ShouldUseSearch(Trim(word))
    ensures BuildDictUrl(p, word) == DirectPrefix(p) + Encode(Lower(Trim(word)))
    ensures forall i :: |DirectPrefix(p)| <= i < |BuildDictUrl(p, word)| ==> UriChar(BuildDictUrl(p, word)[i])
  {
    DirectUrlOfPlainWord(p, word);
    EncodedTail(DirectPrefix(p), Encode(Lower(Trim(word))));
  }

  lemma DirectUrlOfPlainWord(p: Provider, word: string)
    requires !ShouldUseSearch(Trim(word))
    ensures BuildDictUrl(p, word) == DirectPrefix(p) + Encode(Lower(Trim(word)))
  {
    var w := Trim(word);
    TrimIdempotent(word);
    assert w != "";
    assert !HasWhitespace(w);
  }

  lemma EncodedTail(prefix: string, e: string)
    requires forall i :: 0 <= i < |e| ==> UriChar(e[i])
    ensures forall i :: |prefix| <= i < |prefix + e| ==> UriChar((prefix + e)[i])
  {
    forall i | |prefix| <= i < |prefix + e| ensures UriChar((prefix + e)[i]) {
      assert (prefix + e)[i] == e[i - |prefix|];
    }
  }

  /** The search query decodes to the UTF-8 bytes of
      `site:<domain> "<word>"` with the trimmed word. */
  lemma SearchQueryDecodes(p: Provider, word: string)
    requires ShouldUseSearch(Trim(word))
    ensures BuildDictUrl(p, word)[|SearchBase|..] == Encode("site:" + SearchSite(p) + " \"" + Trim(word) + "\"")
    ensures PercentDecode(BuildDictUrl(p, word)[|SearchBase|..])
      == Some(Utf8String("site:" + SearchSite(p) + " \"" + Trim(word) + "\""))
  {
    DecodeEncode("site:" + SearchSite(p) + " \"" + Trim(word) + "\"");
  }

  lemma TrimPaddedDog()
    ensures Trim(" Dog ") == "Dog"
  {
    TrimPieces(" Dog ", 1, 4);
  }

  lemma CapitalDogIsDirect()
    ensures !ShouldUseSearch("Dog") && Lower("Dog") == "dog"
  {
    CaseIndependent("Dog");
    assert Lower("Dog") == "dog";
    DirectDog();
  }

  /** A capitalised base form with blanks around it opens the entry page of
      its lower-case form: ` Dog ` opens Cambridge's page for `dog`. */
  lemma EntryPageExample()
    ensures BuildDictUrl(Cambridge, " Dog ") ==
      "https://" + "dictionary.cambridge.org" + "/dictionary/learner-english/" + "dog"
  {
    TrimPaddedDog();
    CapitalDogIsDirect();
    DirectUrlOfPlainWord(Cambridge, " Dog ");
    DogEncodes();
  }

  lemma DogEncodes()
    ensures Encode("dog") == "dog"
  {
    EncodeUnreserved("dog");
  }

  /** The word on display wins when it is not blank; otherwise the card
      under the cursor gives the word; with neither there is no word. */
  lemma LookupWordSpec(currentWord: string, deck: seq<Flashcard>, cursor: int)
    ensures Trim(currentWord) != "" ==> LookupWord(currentWord, deck, cursor) == Some(Trim(currentWord))
    ensures Trim(currentWord) == "" && 0 <= cursor < |deck| && Trim(deck[cursor].term) != "" ==>
      LookupWord(currentWord, deck, cursor) == Some(Trim(deck[cursor].term))
    ensures LookupWord(currentWord, deck, cursor) == None <==>
      Trim(currentWord) == "" && (0 <= cursor < |deck| ==> Trim(deck[cursor].term) == "")
  {
  }
}
