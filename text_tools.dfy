/**
 * The text-scoring layer: cleaning one token, splitting an article into
 * normalised words under a time budget, and the jaundice rate of a word list.
 */
module TextTools {

  /** The lemmatiser: a token to its normal (dictionary) form. */
  type Lemmatizer = string -> string

  /**
   * The monotonic clock as split_by_words reads it: reading 0 is the start
   * time, reading k + 1 is taken right after token k has been processed.
   */
  type Clock = nat -> real

  /** Seconds split_by_words may spend before it raises a TimeoutError. */
  const TimeLimit: real := 3.0

  // ---------------------------------------------------------------------
  // Characters
  // ---------------------------------------------------------------------

  /** Python's `string.punctuation`, in its own order. */
  const Punctuation: string := "!\"#$%&'()*+,-./:;<=>?@[\\]^_`{|}~"

  /** Membership in `Punctuation`, as its four ASCII ranges. */
  predicate IsPunctuation(c: char) {
    ('!' <= c <= '/') || (':' <= c <= '@') || ('[' <= c <= '`') || ('{' <= c <= '~')
  }

  /** The ranges are exactly the characters of the `Punctuation` literal. */
  lemma PunctuationIsStringPunctuation(c: char)
    ensures IsPunctuation(c) <==> c in Punctuation
  {
    if IsPunctuation(c) {
      PunctuationRangesInLiteral(c);
    } else {
      assert forall k :: 0 <= k < |Punctuation| ==> IsPunctuation(Punctuation[k]);
    }
  }

  /** Each range character stands at its offset in the literal. */
  lemma PunctuationRangesInLiteral(c: char)
    requires IsPunctuation(c)
    ensures c in Punctuation
  {
    if '!' <= c <= '/' {
      assert Punctuation[c as int - 33] == c;
    } else if ':' <= c <= '@' {
      assert Punctuation[c as int - 58 + 15] == c;
    } else if '[' <= c <= '`' {
      assert Punctuation[c as int - 91 + 22] == c;
    } else {
      assert Punctuation[c as int - 123 + 28] == c;
    }
  }

  /** The three marks `_clean_word` deletes: «, » and the ellipsis. */
  predicate IsMark(c: char) {
    c == '«' || c == '»' || c == '…'
  }

  /** Python's `str.isspace`, the separators of `str.split()` with no argument. */
  predicate IsSpace(c: char) {
    ('\t' <= c <= '\r') || ('\U{1C}' <= c <= '\U{1F}') || c == ' '
    || c == '\U{85}' || c == '\U{A0}' || c == '\U{1680}'
    || ('\U{2000}' <= c <= '\U{200A}') || c == '\U{2028}' || c == '\U{2029}'
    || c == '\U{202F}' || c == '\U{205F}' || c == '\U{3000}'
  }

  // ---------------------------------------------------------------------
  // _clean_word
  // ---------------------------------------------------------------------

  /** No «, » or … anywhere in `s`. */
  ghost predicate NoMarks(s: string) {
    forall k :: 0 <= k < |s| ==> !IsMark(s[k])
  }

  /** `w.replace(c, '')`: every occurrence of `c` deleted. */
  function Without(w: string, c: char): (r: string)
    ensures forall k :: 0 <= k < |r| ==> r[k] != c
    ensures |r| <= |w|
  {
    if w == [] then []
    else (if w[0] == c then [] else [w[0]]) + Without(w[1..], c)
  }

  /** The three `replace` calls of `_clean_word`, as one pass that drops every mark. */
  function RemoveMarks(w: string): (r: string)
    ensures NoMarks(r)
    ensures |r| <= |w|
  {
    if w == [] then []
    else (if IsMark(w[0]) then [] else [w[0]]) + RemoveMarks(w[1..])
  }

  /** Without on a string with a first character. */
  lemma WithoutCons(x: char, s: string, c: char)
    ensures Without([x] + s, c) == (if x == c then [] else [x]) + Without(s, c)
  {
    assert ([x] + s)[0] == x && ([x] + s)[1..] == s;
  }

  /** RemoveMarks is exactly `.replace('«', '').replace('»', '').replace('…', '')`. */
  lemma {:induction false} RemoveMarksIsReplaceChain(w: string)
    ensures RemoveMarks(w) == Without(Without(Without(w, '«'), '»'), '…')
  {
    if w != [] {
      RemoveMarksIsReplaceChain(w[1..]);
      var x := w[0];
      var a := Without(w[1..], '«');
      var b := Without(a, '»');
      assert w == [x] + w[1..];
      WithoutCons(x, w[1..], '«');
      WithoutCons(x, a, '»');
      WithoutCons(x, b, '…');
      if x == '«' {
        assert Without(w, '«') == a;
      } else if x == '»' {
        assert Without(Without(w, '«'), '»') == b;
      } else if x == '…' {
        assert Without(Without(w, '«'), '»') == [x] + b;
      } else {
        assert Without(Without(w, '«'), '»') == [x] + b;
        assert RemoveMarks(w) == [x] + RemoveMarks(w[1..]);
      }
    }
  }

  /** Only the marks are deleted: every other character keeps its count. */
  lemma {:induction false} RemoveMarksKeepsOthers(w: string, d: char)
    requires !IsMark(d)
    ensures multiset(RemoveMarks(w))[d] == multiset(w)[d]
  {
    if w != [] {
      assert w == [w[0]] + w[1..];
      RemoveMarksKeepsOthers(w[1..], d);
    }
  }

  /** A word without marks is left as it is. */
  lemma {:induction false} RemoveMarksAbsent(w: string)
    requires NoMarks(w)
    ensures RemoveMarks(w) == w
  {
    if w != [] {
      RemoveMarksAbsent(w[1..]);
    }
  }

  /** Mark removal works character by character: it distributes over concatenation. */
  lemma {:induction false} RemoveMarksAppend(a: string, b: string)
    ensures RemoveMarks(a + b) == RemoveMarks(a) + RemoveMarks(b)
  {
    if a == [] {
      assert a + b == b;
    } else {
      assert (a + b)[0] == a[0] && (a + b)[1..] == a[1..] + b;
      RemoveMarksAppend(a[1..], b);
      var head := if IsMark(a[0]) then [] else [a[0]];
      assert RemoveMarks(a + b) == head + RemoveMarks(a[1..] + b);
      assert RemoveMarks(a) == head + RemoveMarks(a[1..]);
    }
  }

  /** Every character of `s` is punctuation. */
  ghost predicate AllPunctuation(s: string) {
    forall k :: 0 <= k < |s| ==> IsPunctuation(s[k])
  }

  /** `s` neither starts nor ends with punctuation. */
  ghost predicate NoPunctuationAtEnds(s: string) {
    s == [] || (!IsPunctuation(s[0]) && !IsPunctuation(s[|s| - 1]))
  }

  /**
   * `r` is what `m.strip(string.punctuation)` must be: a slice of `m` with no
   * punctuation at either end, and only punctuation cut away on each side.
   */
  ghost predicate IsStripOf(r: string, m: string) {
    exists i, j :: 0 <= i <= j <= |m| && r == m[i..j]
                   && AllPunctuation(m[..i]) && AllPunctuation(m[j..])
                   && NoPunctuationAtEnds(r)
  }

  /** `w.lstrip(string.punctuation)`. */
  function TrimStart(w: string): (r: string)
    ensures |r| <= |w| && r == w[|w| - |r|..]
    ensures AllPunctuation(w[..|w| - |r|])
    ensures r != [] ==> !IsPunctuation(r[0])
  {
    if w != [] && IsPunctuation(w[0]) then TrimStart(w[1..]) else w
  }

  /** `w.rstrip(string.punctuation)`. */
  function TrimEnd(w: string): (r: string)
    ensures |r| <= |w| && r == w[..|r|]
    ensures AllPunctuation(w[|r|..])
    ensures r != [] ==> !IsPunctuation(r[|r| - 1])
  {
    if w != [] && IsPunctuation(w[|w| - 1]) then TrimEnd(w[..|w| - 1]) else w
  }

  /** `w.strip(string.punctuation)`. */
  function StripPunctuation(w: string): (r: string)
    ensures NoPunctuationAtEnds(r)
    ensures |r| <= |w|
  {
    var t := TrimStart(w);
    var r := TrimEnd(t);
    assert r != [] ==> r[0] == t[0];
    r
  }

  /** StripPunctuation cuts only punctuation, from the two ends. */
  lemma StripPunctuationIsStrip(w: string)
    ensures IsStripOf(StripPunctuation(w), w)
  {
    var t := TrimStart(w);
    var r := TrimEnd(t);
    var i := |w| - |t|;
    assert r == w[i..i + |r|];
    assert w[i + |r|..] == t[|r|..];
    assert 0 <= i <= i + |r| <= |w| && r == w[i..i + |r|];
  }

  /** `_clean_word`: delete «, » and …, then strip ASCII punctuation from both ends. */
  function CleanWord(w: string): (r: string)
    ensures NoMarks(r)
    ensures NoPunctuationAtEnds(r)
  {
    StripPunctuation(RemoveMarks(w))
  }

  /**
   * Once the marks are gone, cleaning cuts only punctuation and only at the
   * ends: punctuation inside the word, as in "во-первых", stays.
   */
  lemma CleanWordIsStrip(w: string)
    ensures IsStripOf(CleanWord(w), RemoveMarks(w))
  {
    StripPunctuationIsStrip(RemoveMarks(w));
  }

  /** The punctuation-only prefix ends where the first other character stands. */
  lemma {:induction false} TrimStartAt(m: string, i: nat)
    requires i <= |m| && AllPunctuation(m[..i]) && (i < |m| ==> !IsPunctuation(m[i]))
    ensures TrimStart(m) == m[i..]
  {
    if i > 0 {
      assert m[..i][0] == m[0];
      assert m[1..][..i - 1] == m[1..i];
      TrimStartAt(m[1..], i - 1);
    }
  }

  /** The punctuation-only suffix starts right after the last other character. */
  lemma {:induction false} TrimEndAt(m: string, j: nat)
    requires j <= |m| && AllPunctuation(m[j..]) && (j > 0 ==> !IsPunctuation(m[j - 1]))
    ensures TrimEnd(m) == m[..j]
  {
    if j < |m| {
      assert m[j..][|m| - 1 - j] == m[|m| - 1];
      assert m[..|m| - 1][j..] == m[j..|m| - 1];
      TrimEndAt(m[..|m| - 1], j);
    }
  }

  /**
   * `strip` is the only slice with the IsStripOf property: any slice that
   * cuts only punctuation away and keeps none at its ends is StripPunctuation(m).
   */
  lemma StripCharacterised(r: string, m: string)
    requires IsStripOf(r, m)
    ensures r == StripPunctuation(m)
  {
    var i, j :| 0 <= i <= j <= |m| && r == m[i..j] && AllPunctuation(m[..i])
                && AllPunctuation(m[j..]) && NoPunctuationAtEnds(r);
    if i == j {
      StripOfPunctuationOnly(m, i);
    } else {
      StripOfSlice(m, i, j);
    }
  }

  /** A string made of punctuation alone strips to the empty string. */
  lemma StripOfPunctuationOnly(m: string, i: nat)
    requires i <= |m| && AllPunctuation(m[..i]) && AllPunctuation(m[i..])
    ensures StripPunctuation(m) == []
  {
    assert AllPunctuation(m[..|m|]) by {
      forall k | 0 <= k < |m| ensures IsPunctuation(m[..|m|][k]) {
        if k < i { assert m[..i][k] == m[k]; } else { assert m[i..][k - i] == m[k]; }
      }
    }
    TrimStartAt(m, |m|);
  }

  /** A non-empty slice with only punctuation outside it and none at its ends is the strip. */
  lemma StripOfSlice(m: string, i: nat, j: nat)
    requires i < j <= |m| && AllPunctuation(m[..i]) && AllPunctuation(m[j..])
    requires NoPunctuationAtEnds(m[i..j])
    ensures StripPunctuation(m) == m[i..j]
  {
    var t := m[i..];
    assert !IsPunctuation(m[i]) by { assert m[i..j][0] == m[i]; }
    TrimStartAt(m, i);
    assert AllPunctuation(t[j - i..]) by { assert t[j - i..] == m[j..]; }
    assert !IsPunctuation(t[j - i - 1]) by { assert t[j - i - 1] == m[i..j][j - i - 1]; }
    TrimEndAt(t, j - i);
    assert t[..j - i] == m[i..j];
  }


  /** Cleaning a cleaned word changes nothing. */
  lemma {:induction false} CleanWordIdempotent(w: string)
    ensures CleanWord(CleanWord(w)) == CleanWord(w)
  {
    var r := CleanWord(w);
    RemoveMarksAbsent(r);
    StripFixed(r);
  }

  /** A string with no punctuation at its ends is its own strip. */
  lemma StripFixed(r: string)
    requires NoPunctuationAtEnds(r)
    ensures StripPunctuation(r) == r
  {
    if r != [] {
      assert r[..0] == [] && r[|r|..] == [] && r[0..|r|] == r;
      StripOfSlice(r, 0, |r|);
    }
  }

  /**
   * A mark-free word whose first `n` characters have no punctuation at their
   * ends, followed only by punctuation, cleans to those `n` characters.
   */
  lemma CleanWordDropsTrailingPunctuation(w: string, n: nat)
    requires NoMarks(w)
    requires 0 < n <= |w| && NoPunctuationAtEnds(w[..n]) && AllPunctuation(w[n..])
    ensures CleanWord(w) == w[..n]
  {
    RemoveMarksAbsent(w);
    assert w[..0] == [] && w[0..n] == w[..n];
    StripOfSlice(w, 0, n);
  }

  /** The first token of text_tools.py's first test: the hyphen inside survives, the comma goes. */
  lemma CleanWordKeepsInnerHyphen(w: string)
    requires w == "Во-первых,"
    ensures CleanWord(w) == "Во-первых"
  {
    assert w[..9] == "Во-первых" && w[9..] == ",";
    CleanWordDropsTrailingPunctuation(w, 9);
  }

  // ---------------------------------------------------------------------
  // text.split()
  // ---------------------------------------------------------------------

  /** A piece `str.split()` can return: non-empty, with no whitespace in it. */
  ghost predicate IsToken(t: string) {
    t != [] && forall k :: 0 <= k < |t| ==> !IsSpace(t[k])
  }

  /** Length of the run of non-whitespace characters that `s` starts with. */
  function RunLength(s: string): (n: nat)
    ensures n <= |s|
    ensures forall k :: 0 <= k < n ==> !IsSpace(s[k])
    ensures n < |s| ==> IsSpace(s[n])
  {
    if s == [] || IsSpace(s[0]) then 0 else 1 + RunLength(s[1..])
  }

  /** `s.split()`: the maximal whitespace-free runs of `s`, in order, none empty. */
  function Tokens(s: string): (r: seq<string>)
    ensures forall k :: 0 <= k < |r| ==> IsToken(r[k])
    decreases |s|
  {
    if s == [] then []
    else if IsSpace(s[0]) then Tokens(s[1..])
    else
      var n := RunLength(s);
      [s[..n]] + Tokens(s[n..])
  }

  /** `' '.join(ts)`. */
  function Join(ts: seq<string>): string {
    if ts == [] then []
    else if |ts| == 1 then ts[0]
    else ts[0] + " " + Join(ts[1..])
  }

  /** The characters of `s` that are not whitespace, in order. */
  function NonSpace(s: string): (r: string)
    ensures forall k :: 0 <= k < |r| ==> !IsSpace(r[k])
  {
    if s == [] then []
    else (if IsSpace(s[0]) then [] else [s[0]]) + NonSpace(s[1..])
  }

  /** All token characters, one token after the other. */
  function Concat(ts: seq<string>): string {
    if ts == [] then [] else ts[0] + Concat(ts[1..])
  }

  /** Dropping whitespace distributes over concatenation. */
  lemma {:induction false} NonSpaceAppend(a: string, b: string)
    ensures NonSpace(a + b) == NonSpace(a) + NonSpace(b)
  {
    if a != [] {
      var head: string := if IsSpace(a[0]) then [] else [a[0]];
      assert (a + b)[0] == a[0] && (a + b)[1..] == a[1..] + b;
      NonSpaceAppend(a[1..], b);
      calc {
        NonSpace(a + b);
        head + NonSpace(a[1..] + b);
        head + (NonSpace(a[1..]) + NonSpace(b));
        (head + NonSpace(a[1..])) + NonSpace(b);
      }
    } else {
      assert a + b == b;
    }
  }

  /** A string without whitespace loses nothing. */
  lemma {:induction false} NonSpaceOfToken(t: string)
    requires forall k :: 0 <= k < |t| ==> !IsSpace(t[k])
    ensures NonSpace(t) == t
  {
    if t != [] {
      NonSpaceOfToken(t[1..]);
    }
  }

  /** Splitting loses no character but whitespace, and reorders nothing. */
  lemma {:induction false} TokensKeepAllText(s: string)
    ensures Concat(Tokens(s)) == NonSpace(s)
    decreases |s|
  {
    if s != [] {
      if IsSpace(s[0]) {
        TokensKeepAllText(s[1..]);
      } else {
        var n := RunLength(s);
        assert s == s[..n] + s[n..];
        NonSpaceAppend(s[..n], s[n..]);
        NonSpaceOfToken(s[..n]);
        TokensKeepAllText(s[n..]);
        assert ([s[..n]] + Tokens(s[n..]))[1..] == Tokens(s[n..]);
      }
    }
  }

  /** The leading run of a token followed by whitespace is the token. */
  lemma {:induction false} RunLengthOfToken(t: string, rest: string)
    requires forall k :: 0 <= k < |t| ==> !IsSpace(t[k])
    requires rest == [] || IsSpace(rest[0])
    ensures RunLength(t + rest) == |t|
  {
    if t != [] {
      assert (t + rest)[1..] == t[1..] + rest;
      RunLengthOfToken(t[1..], rest);
    }
  }

  /** A token followed by nothing or by whitespace is split off whole. */
  lemma TokensOfTokenThen(t: string, rest: string)
    requires IsToken(t)
    requires rest == [] || IsSpace(rest[0])
    ensures Tokens(t + rest) == [t] + Tokens(rest)
  {
    var s := t + rest;
    RunLengthOfToken(t, rest);
    assert s[..|t|] == t && s[|t|..] == rest;
    assert s[0] == t[0];
  }

  /** Leading whitespace is skipped: it starts no token. */
  lemma TokensOfSpaceThen(s: string)
    requires s != [] && IsSpace(s[0])
    ensures Tokens(s) == Tokens(s[1..])
  {
  }

  /** Splitting undoes joining with single spaces. */
  lemma {:induction false} TokensOfJoin(ts: seq<string>)
    requires forall k :: 0 <= k < |ts| ==> IsToken(ts[k])
    ensures Tokens(Join(ts)) == ts
  {
    if ts != [] {
      var t := ts[0];
      var rest: string := if |ts| == 1 then [] else " " + Join(ts[1..]);
      var s := t + rest;
      assert Join(ts) == s;
      TokensOfTokenThen(t, rest);
      if |ts| > 1 {
        TokensOfJoin(ts[1..]);
        assert rest[0] == ' ' && rest[1..] == Join(ts[1..]);
        assert Tokens(rest) == Tokens(rest[1..]);
        assert ts == [t] + ts[1..];
      }
    }
  }

  // ---------------------------------------------------------------------
  // split_by_words
  // ---------------------------------------------------------------------

  /** A token's normal form: the lemmatiser applied to the cleaned token. */
  function Normalizer(morph: Lemmatizer): (normalize: string -> string) {
    t => morph(CleanWord(t))
  }

  /** A token that is already clean has the same normal form as the raw token. */
  lemma NormalizerIgnoresRecleaning(morph: Lemmatizer, t: string)
    ensures Normalizer(morph)(CleanWord(t)) == Normalizer(morph)(t)
  {
    CleanWordIdempotent(t);
  }

  /** The filter of split_by_words: longer than two characters, or the particle "не". */
  predicate IsKept(w: string) {
    |w| > 2 || w == "не"
  }

  /** The normal forms of `tokens` that pass the filter, in token order. */
  function KeepWords(normalize: string -> string, tokens: seq<string>): (words: seq<string>)
    ensures |words| <= |tokens|
    ensures forall k :: 0 <= k < |words| ==> IsKept(words[k])
    decreases |tokens|
  {
    if tokens == [] then []
    else
      var n := |tokens| - 1;
      var w := normalize(tokens[n]);
      KeepWords(normalize, tokens[..n]) + (if IsKept(w) then [w] else [])
  }

  /** Positions of the tokens whose normal form passes the filter, in increasing order. */
  function KeptIndices(normalize: string -> string, tokens: seq<string>): (ix: seq<nat>)
    ensures forall k :: 0 <= k < |ix| ==> ix[k] < |tokens|
    ensures forall k, l :: 0 <= k < l < |ix| ==> ix[k] < ix[l]
    ensures forall i :: 0 <= i < |tokens| ==> (i in ix <==> IsKept(normalize(tokens[i])))
    decreases |tokens|
  {
    if tokens == [] then []
    else
      var n := |tokens| - 1;
      var ix := KeptIndices(normalize, tokens[..n]);
      assert forall i :: 0 <= i < n ==> tokens[..n][i] == tokens[i];
      ix + (if IsKept(normalize(tokens[n])) then [n] else [])
  }

  /**
   * KeepWords is the in-order subsequence of the normal forms at KeptIndices:
   * order and duplicates are those of the tokens.
   */
  lemma {:induction false} KeepWordsAtKeptIndices(normalize: string -> string, tokens: seq<string>)
    ensures |KeepWords(normalize, tokens)| == |KeptIndices(normalize, tokens)|
    ensures forall k :: 0 <= k < |KeptIndices(normalize, tokens)| ==>
              KeepWords(normalize, tokens)[k] == normalize(tokens[KeptIndices(normalize, tokens)[k]])
    decreases |tokens|
  {
    if tokens != [] {
      var n := |tokens| - 1;
      KeepWordsAtKeptIndices(normalize, tokens[..n]);
      var ws := KeepWords(normalize, tokens[..n]);
      var ix := KeptIndices(normalize, tokens[..n]);
      var w := normalize(tokens[n]);
      var ws' := KeepWords(normalize, tokens);
      var ix' := KeptIndices(normalize, tokens);
      assert ws' == ws + (if IsKept(w) then [w] else []);
      assert ix' == ix + (if IsKept(w) then [n] else []);
      forall k | 0 <= k < |ix'| ensures ws'[k] == normalize(tokens[ix'[k]]) {
        if k < |ix| {
          assert ws'[k] == ws[k] && ix'[k] == ix[k];
          assert tokens[..n][ix[k]] == tokens[ix[k]];
        }
      }
    }
  }

  /** One more token: the step of the loop in split_by_words. */
  lemma KeepWordsStep(normalize: string -> string, tokens: seq<string>, i: nat)
    requires i < |tokens|
    ensures KeepWords(normalize, tokens[..i + 1])
            == KeepWords(normalize, tokens[..i])
               + (if IsKept(normalize(tokens[i])) then [normalize(tokens[i])] else [])
  {
    assert tokens[..i + 1][..i] == tokens[..i];
  }

  /** A time check: reading k + 1 lies more than TimeLimit past the start reading. */
  predicate OverBudget(clock: Clock, k: nat) {
    clock(k + 1) - clock(0) > TimeLimit
  }

  /** Whether one of the checks after the first n tokens fails. */
  function TimedOutWithin(clock: Clock, n: nat): (b: bool)
    ensures b <==> exists k :: 0 <= k < n && OverBudget(clock, k)
  {
    if n == 0 then false else TimedOutWithin(clock, n - 1) || OverBudget(clock, n - 1)
  }

  /** What split_by_words yields, or the TimeoutError it raises. */
  datatype SplitOutcome = Words(words: seq<string>) | TimedOut

  /**
   * split_by_words: clean, normalise and filter every whitespace token in
   * order, checking the clock after each one.
   */
  method SplitByWords(morph: Lemmatizer, text: string, clock: Clock) returns (r: SplitOutcome)
    ensures r.TimedOut? <==> TimedOutWithin(clock, |Tokens(text)|)
    ensures r.Words? ==> r.words == KeepWords(Normalizer(morph), Tokens(text))
  {
    var start := clock(0);
    var words: seq<string> := [];
    var tokens := Tokens(text);
    var i := 0;
    while i < |tokens|
      invariant 0 <= i <= |tokens|
      invariant words == KeepWords(Normalizer(morph), tokens[..i])
      invariant !TimedOutWithin(clock, i)
    {
      // _clean_word, then the normal form of the lemmatiser's first parse
      var normalized := Normalizer(morph)(tokens[i]);
      if IsKept(normalized) {
        words := words + [normalized];
      }
      KeepWordsStep(Normalizer(morph), tokens, i);
      if clock(i + 1) - start > TimeLimit {
        assert OverBudget(clock, i);
        return TimedOut;
      }
      i := i + 1;
    }
    assert tokens[..i] == tokens;
    return Words(words);
  }

  /** The filter works token by token: it distributes over concatenation. */
  lemma {:induction false} KeepWordsAppend(normalize: string -> string, a: seq<string>, b: seq<string>)
    ensures KeepWords(normalize, a + b) == KeepWords(normalize, a) + KeepWords(normalize, b)
    decreases |b|
  {
    if b == [] {
      assert a + b == a;
    } else {
      var n := |b| - 1;
      assert (a + b)[..|a| + n] == a + b[..n];
      assert (a + b)[|a| + n] == b[n];
      KeepWordsAppend(normalize, a, b[..n]);
    }
  }

  // ---------------------------------------------------------------------
  // calculate_jaundice_rate
  // ---------------------------------------------------------------------

  /** `[word for word in words if word in set(charged)]`. */
  function FoundCharged(words: seq<string>, charged: seq<string>): (found: seq<string>)
    ensures |found| <= |words|
    ensures forall k :: 0 <= k < |found| ==> found[k] in charged
    decreases |words|
  {
    if words == [] then []
    else
      var n := |words| - 1;
      FoundCharged(words[..n], charged) + (if words[n] in charged then [words[n]] else [])
  }

  /**
   * calculate_jaundice_rate before rounding: the percentage of article words
   * that are charged words, and 0 for an empty article.
   */
  function JaundiceRate(words: seq<string>, charged: seq<string>): (score: real)
    ensures 0.0 <= score <= 100.0
    ensures words == [] ==> score == 0.0
  {
    if words == [] then 0.0
    else
      var found := |FoundCharged(words, charged)| as real;
      var total := |words| as real;
      assert found / total <= 1.0;
      found / total * 100.0
  }

  /** The positions of `words` that hold a charged word. */
  ghost function ChargedPositions(words: seq<string>, charged: seq<string>): set<nat> {
    set i: nat | i < |words| && words[i] in charged
  }

  /** The number of charged words found is the number of charged positions. */
  lemma {:induction false} FoundChargedCountsPositions(words: seq<string>, charged: seq<string>)
    ensures |FoundCharged(words, charged)| == |ChargedPositions(words, charged)|
    decreases |words|
  {
    if words != [] {
      var n := |words| - 1;
      FoundChargedCountsPositions(words[..n], charged);
      var before := ChargedPositions(words[..n], charged);
      assert before == set i: nat | i < n && words[i] in charged;
      if words[n] in charged {
        assert ChargedPositions(words, charged) == before + {n};
      } else {
        assert ChargedPositions(words, charged) == before;
      }
    }
  }

  /** For a non-empty article: 100 times the share of charged positions. */
  lemma JaundiceRateIsShareOfPositions(words: seq<string>, charged: seq<string>)
    requires words != []
    ensures JaundiceRate(words, charged)
            == (|ChargedPositions(words, charged)| as real) / (|words| as real) * 100.0
  {
    FoundChargedCountsPositions(words, charged);
  }

  /** The comprehension works word by word: it distributes over concatenation. */
  lemma {:induction false} FoundChargedAppend(a: seq<string>, b: seq<string>, charged: seq<string>)
    ensures FoundCharged(a + b, charged) == FoundCharged(a, charged) + FoundCharged(b, charged)
    decreases |b|
  {
    if b == [] {
      assert a + b == a;
    } else {
      var n := |b| - 1;
      assert (a + b)[..|a| + n] == a + b[..n];
      assert (a + b)[|a| + n] == b[n];
      FoundChargedAppend(a, b[..n], charged);
    }
  }

  /** Taking one word out of the article takes out at most that word from the charged ones found. */
  lemma FoundChargedRemove(w: seq<string>, j: nat, charged: seq<string>)
    requires j < |w|
    ensures |FoundCharged(w, charged)|
            == |FoundCharged(w[..j] + w[j + 1..], charged)| + (if w[j] in charged then 1 else 0)
  {
    var x := w[j];
    assert w == (w[..j] + [x]) + w[j + 1..];
    FoundChargedAppend(w[..j] + [x], w[j + 1..], charged);
    FoundChargedAppend(w[..j], [x], charged);
    FoundChargedAppend(w[..j], w[j + 1..], charged);
    assert [x][..0] == [];
  }

  /** Taking the same element out of two permutations of each other leaves two permutations. */
  lemma PermutationRemove(w1: seq<string>, w2: seq<string>, j: nat)
    requires multiset(w1) == multiset(w2)
    requires w1 != [] && j < |w2| && w2[j] == w1[|w1| - 1]
    ensures multiset(w1[..|w1| - 1]) == multiset(w2[..j] + w2[j + 1..])
  {
    var n := |w1| - 1;
    var x := w1[n];
    var a, b := w2[..j], w2[j + 1..];
    assert w1 == w1[..n] + [x];
    assert w2 == a + [x] + b;
    assert multiset(w1) == multiset(w1[..n]) + multiset{x};
    assert multiset(w2) == multiset(a) + multiset{x} + multiset(b);
    assert multiset(a + b) == multiset(a) + multiset(b);
    assert multiset(w1[..n]) == multiset(w1) - multiset{x} == multiset(a + b);
  }

  /** Reordering the article words changes the charged count not at all. */
  lemma {:induction false} FoundChargedPermutation(w1: seq<string>, w2: seq<string>, charged: seq<string>)
    requires multiset(w1) == multiset(w2)
    ensures |FoundCharged(w1, charged)| == |FoundCharged(w2, charged)|
    decreases |w1|
  {
    if w1 != [] {
      var n := |w1| - 1;
      var x := w1[n];
      assert x in multiset(w1);
      var j :| 0 <= j < |w2| && w2[j] == x;
      var rest := w2[..j] + w2[j + 1..];
      PermutationRemove(w1, w2, j);
      FoundChargedPermutation(w1[..n], rest, charged);
      FoundChargedRemove(w2, j, charged);
      assert FoundCharged(w1, charged) == FoundCharged(w1[..n], charged) + (if x in charged then [x] else []);
    } else {
      assert w2 == [];
    }
  }

  /** The score does not depend on the order of the article words. */
  lemma JaundiceRatePermutation(w1: seq<string>, w2: seq<string>, charged: seq<string>)
    requires multiset(w1) == multiset(w2)
    ensures JaundiceRate(w1, charged) == JaundiceRate(w2, charged)
  {
    assert |w1| == |multiset(w1)| == |multiset(w2)| == |w2|;
    FoundChargedPermutation(w1, w2, charged);
  }

  /** Only membership in `charged` matters: `set(charged_words)` forgets order and repeats. */
  lemma {:induction false} FoundChargedUsesSetOnly(words: seq<string>, c1: seq<string>, c2: seq<string>)
    requires forall x :: x in c1 <==> x in c2
    ensures FoundCharged(words, c1) == FoundCharged(words, c2)
    decreases |words|
  {
    if words != [] {
      FoundChargedUsesSetOnly(words[..|words| - 1], c1, c2);
    }
  }

  /** The score depends on the charged words only through their set. */
  lemma JaundiceRateUsesSetOnly(words: seq<string>, c1: seq<string>, c2: seq<string>)
    requires forall x :: x in c1 <==> x in c2
    ensures JaundiceRate(words, c1) == JaundiceRate(words, c2)
  {
    FoundChargedUsesSetOnly(words, c1, c2);
  }

  /** The second case of text_tools.py's test: one charged word among three. */
  lemma JaundiceRateOneInThree(words: seq<string>, charged: seq<string>)
    requires words == ["все", "аутсайдер", "побег"] && charged == ["аутсайдер", "банкротство"]
    ensures 33.0 < JaundiceRate(words, charged) < 34.0
  {
    var w1, w2 := words[..1], words[..2];
    assert w1 == ["все"] && w2 == ["все", "аутсайдер"] && w2[..1] == w1 && w1[..0] == [];
    assert charged[0] == "аутсайдер";
    assert "все" !in charged;
    assert "побег" !in charged;
    assert FoundCharged(w1[..0], charged) == [];
    assert FoundCharged(w1, charged) == [];
    assert FoundCharged(w2, charged) == ["аутсайдер"];
    assert FoundCharged(words, charged) == ["аутсайдер"];
  }
}
