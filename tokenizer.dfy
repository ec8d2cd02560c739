/**
 * Turning the free text of the text area into candidate tokens:
 * `input.split(/[\n,;]+/).map(trim).filter(nonEmpty)`.
 */
module Tokenizer {

  /** The characters of the split pattern `[\n,;]`. A space is not one of them. */
  predicate IsDelimiter(c: char) {
    c == '\n' || c == ',' || c == ';'
  }

  /** The characters `String.prototype.trim` removes: ECMAScript's WhiteSpace
      (TAB, VT, FF, SP, NBSP, ZWNBSP and the other space separators) and
      LineTerminator (LF, CR, LS, PS). */
  predicate IsWhitespace(c: char) {
    || c == '\t' || c == '\n' || c == '\U{000B}' || c == '\U{000C}' || c == '\r'
    || c == ' ' || c == '\U{00A0}' || c == '\U{1680}'
    || ('\U{2000}' <= c <= '\U{200A}')
    || c == '\U{2028}' || c == '\U{2029}' || c == '\U{202F}' || c == '\U{205F}'
    || c == '\U{3000}' || c == '\U{FEFF}'
  }

  predicate NoDelimiter(s: string) {
    forall i :: 0 <= i < |s| ==> !IsDelimiter(s[i])
  }

  predicate AllWhitespace(s: string) {
    forall i :: 0 <= i < |s| ==> IsWhitespace(s[i])
  }

  /** Neither end of `s` is whitespace. */
  predicate IsTrimmed(s: string) {
    s == [] || (!IsWhitespace(s[0]) && !IsWhitespace(s[|s| - 1]))
  }

  /** What the tokenizer may emit. */
  predicate IsToken(t: string) {
    |t| > 0 && IsTrimmed(t) && NoDelimiter(t)
  }

  /** Drops the maximal run of delimiters at the front of `s`. */
  function SkipDelimiters(s: string): (r: string)
    ensures |r| <= |s|
    ensures s != [] && IsDelimiter(s[0]) ==> |r| < |s|
    ensures r == [] || !IsDelimiter(r[0])
  {
    if s != [] && IsDelimiter(s[0]) then SkipDelimiters(s[1..]) else s
  }

  /** `s.split(/[\n,;]+/)`: the pieces between maximal delimiter runs,
      keeping the empty piece before a leading run and after a trailing one
      (so `""` gives `[""]` and `",a,"` gives `["", "a", ""]`). */
  function Split(s: string): (segs: seq<string>)
    ensures |segs| >= 1
    decreases |s|
  {
    if s == [] then
      [""]
    else if IsDelimiter(s[0]) then
      [""] + Split(SkipDelimiters(s))
    else
      var rest := Split(s[1..]);
      [[s[0]] + rest[0]] + rest[1..]
  }

  /** How many whitespace characters `s` starts with. */
  function LeadingWhitespace(s: string): (n: nat)
    ensures n <= |s|
    ensures forall k :: 0 <= k < n ==> IsWhitespace(s[k])
    ensures n == |s| || !IsWhitespace(s[n])
  {
    if s != [] && IsWhitespace(s[0]) then 1 + LeadingWhitespace(s[1..]) else 0
  }

  /** How many whitespace characters `s` ends with. */
  function TrailingWhitespace(s: string): (n: nat)
    ensures n <= |s|
    ensures forall k :: |s| - n <= k < |s| ==> IsWhitespace(s[k])
    ensures n == |s| || !IsWhitespace(s[|s| - n - 1])
  {
    if s != [] && IsWhitespace(s[|s| - 1]) then 1 + TrailingWhitespace(s[..|s| - 1]) else 0
  }

  /** `s.trim()`: what is left of `s` once the whitespace at both ends is
      removed (TrimInfix says where it sits in `s`). */
  function Trim(s: string): (r: string)
    ensures |r| <= |s| && IsTrimmed(r)
  {
    var i := LeadingWhitespace(s);
    var rest := s[i..];
    var j := |s| - TrailingWhitespace(rest);
    assert s[i..j] != [] ==> s[i..j][0] == s[i] && s[i..j][j - i - 1] == rest[|rest| - (|s| - j) - 1];
    s[i..j]
  }

  /** `.map(trim).filter(t => t.length > 0)` over the split pieces. */
  function Clean(segs: seq<string>): (tokens: seq<string>)
    ensures |tokens| <= |segs|
  {
    if segs == [] then
      []
    else
      var t := Trim(segs[0]);
      if t == [] then Clean(segs[1..]) else [t] + Clean(segs[1..])
  }

  /** The candidate tokens of the text `s`, in input order. */
  function Tokenize(s: string): seq<string> {
    Clean(Split(s))
  }

  /** Joins tokens with the given separators: `ts[0] + seps[0] + ts[1] + ...`. */
  function Join(ts: seq<string>, seps: seq<string>): string
    requires |ts| <= |seps| + 1
  {
    if |ts| == 0 then ""
    else if |ts| == 1 then ts[0]
    else ts[0] + seps[0] + Join(ts[1..], seps[1..])
  }

  /** A character that never ends up in a token: whitespace or a delimiter. */
  predicate IsFiller(c: char) {
    IsWhitespace(c) || IsDelimiter(c)
  }

  predicate AllFiller(s: string) {
    forall i :: 0 <= i < |s| ==> IsFiller(s[i])
  }

  /** A separator the user might type between codes, such as `","`, `", "`,
      `" ; "` or `",\n,\n"`: whitespace and delimiters, at least one
      delimiter among them. */
  predicate IsSeparator(sep: string) {
    AllFiller(sep) && exists i :: 0 <= i < |sep| && IsDelimiter(sep[i])
  }

  /** How many characters `s` starts with before its first delimiter. */
  function DelimiterFreePrefix(s: string): (n: nat)
    ensures n <= |s|
    ensures forall k :: 0 <= k < n ==> !IsDelimiter(s[k])
    ensures n == |s| || IsDelimiter(s[n])
  {
    if s != [] && !IsDelimiter(s[0]) then 1 + DelimiterFreePrefix(s[1..]) else 0
  }

  // ---------------------------------------------------------------------
  // Properties of the split

  /** Text without delimiters is a single piece. */
  lemma {:induction false} SplitNoDelimiter(s: string)
    requires NoDelimiter(s)
    ensures Split(s) == [s]
    decreases |s|
  {
    if s != [] {
      SplitNoDelimiter(s[1..]);
      assert [s[0]] + s[1..] == s;
    }
  }

  /** A delimiter run ends the current piece; splitting resumes after the run. */
  lemma {:induction false} SplitAtDelimiter(x: string, z: string)
    requires NoDelimiter(x)
    requires |z| > 0 && IsDelimiter(z[0])
    ensures Split(x + z) == [x] + Split(SkipDelimiters(z))
    decreases |x|
  {
    if x == [] {
      assert x + z == z;
    } else {
      assert (x + z)[1..] == x[1..] + z;
      SplitAtDelimiter(x[1..], z);
      assert [x[0]] + x[1..] == x;
    }
  }

  /** No piece of the split contains a delimiter. */
  lemma {:induction false} SplitPieces(s: string)
    ensures forall k :: 0 <= k < |Split(s)| ==> NoDelimiter(Split(s)[k])
    decreases |s|
  {
    if s != [] {
      if IsDelimiter(s[0]) {
        SplitPieces(SkipDelimiters(s));
      } else {
        var rest := Split(s[1..]);
        SplitPieces(s[1..]);
        var first := [s[0]] + rest[0];
        assert forall j :: 0 < j < |first| ==> first[j] == rest[0][j - 1];
      }
    }
  }

  /** What is skipped is a run of delimiters at the front, and what is left
      is the rest of the text. */
  lemma {:induction false} SkipDelimitersSuffix(s: string)
    ensures var r := SkipDelimiters(s);
            && r == s[|s| - |r|..]
            && forall i :: 0 <= i < |s| - |r| ==> IsDelimiter(s[i])
    decreases |s|
  {
    if s != [] && IsDelimiter(s[0]) {
      SkipDelimitersSuffix(s[1..]);
      var r := SkipDelimiters(s);
      assert s[1..][|s| - 1 - |r|..] == s[|s| - |r|..];
      forall i | 0 <= i < |s| - |r| ensures IsDelimiter(s[i]) {
        if i > 0 { assert s[i] == s[1..][i - 1]; }
      }
    }
  }

  // ---------------------------------------------------------------------
  // Properties of trim

  /** The trimmed text is the infix of `s` between its leading and its
      trailing whitespace. */
  lemma TrimInfix(s: string)
    ensures var i := LeadingWhitespace(s);
            && i + |Trim(s)| <= |s|
            && Trim(s) == s[i..i + |Trim(s)|]
            && AllWhitespace(s[..i])
            && AllWhitespace(s[i + |Trim(s)|..])
  {
    var i := LeadingWhitespace(s);
    var rest := s[i..];
    var n := TrailingWhitespace(rest);
    assert rest[|rest| - n..] == s[i + |Trim(s)|..];
  }

  lemma TrimIdentity(t: string)
    requires IsTrimmed(t)
    ensures Trim(t) == t
  {
  }

  lemma TrimBlank(w: string)
    requires AllWhitespace(w)
    ensures Trim(w) == []
  {
  }

  /** `!s.trim()` holds exactly for text made only of whitespace. */
  lemma TrimEmptyIffBlank(s: string)
    ensures Trim(s) == [] <==> AllWhitespace(s)
  {
    if Trim(s) == [] {
      TrimInfix(s);
      var i := LeadingWhitespace(s);
      forall j | 0 <= j < |s| ensures IsWhitespace(s[j]) {
        assert s[..i][j] == s[j];
      }
    }
    if AllWhitespace(s) {
      TrimBlank(s);
    }
  }

  lemma {:induction false} LeadingAfterWhitespace(w: string, s: string)
    requires AllWhitespace(w)
    ensures LeadingWhitespace(w + s) == |w| + LeadingWhitespace(s)
    decreases |w|
  {
    if w == [] {
      assert w + s == s;
    } else {
      assert (w + s)[0] == w[0];
      assert (w + s)[1..] == w[1..] + s;
      LeadingAfterWhitespace(w[1..], s);
    }
  }

  lemma {:induction false} TrailingBeforeWhitespace(s: string, w: string)
    requires AllWhitespace(w)
    ensures TrailingWhitespace(s + w) == |w| + TrailingWhitespace(s)
    decreases |w|
  {
    if w == [] {
      assert s + w == s;
    } else {
      var x := s + w;
      assert x[|x| - 1] == w[|w| - 1];
      assert x[..|x| - 1] == s + w[..|w| - 1];
      TrailingBeforeWhitespace(s, w[..|w| - 1]);
    }
  }

  /** Trim is determined by its result: whitespace around a non-empty
      trimmed text is exactly what `trim()` removes. */
  lemma TrimUnique(w1: string, r: string, w2: string)
    requires AllWhitespace(w1) && AllWhitespace(w2)
    requires r != [] && IsTrimmed(r)
    ensures Trim(w1 + r + w2) == r
  {
    var s := w1 + r + w2;
    assert s == w1 + (r + w2);
    LeadingAfterWhitespace(w1, r + w2);
    assert (r + w2)[0] == r[0];
    assert LeadingWhitespace(s) == |w1|;
    assert s[|w1|..] == r + w2;
    TrailingBeforeWhitespace(r, w2);
    assert TrailingWhitespace(r + w2) == |w2|;
    assert s[|w1|..|s| - |w2|] == r;
  }

  /** Whitespace added at either end does not change what `trim()` returns. */
  lemma TrimPadding(w1: string, s: string, w2: string)
    requires AllWhitespace(w1) && AllWhitespace(w2)
    ensures Trim(w1 + s + w2) == Trim(s)
  {
    if Trim(s) == [] {
      TrimEmptyIffBlank(s);
      AllWhitespaceAppend(w1, s);
      AllWhitespaceAppend(w1 + s, w2);
      TrimEmptyIffBlank(w1 + s + w2);
    } else {
      TrimPaddingNonBlank(w1, s, w2);
    }
  }

  lemma TrimPaddingNonBlank(w1: string, s: string, w2: string)
    requires AllWhitespace(w1) && AllWhitespace(w2) && Trim(s) != []
    ensures Trim(w1 + s + w2) == Trim(s)
  {
    var r := Trim(s);
    var a, b := TrimParts(s);
    AllWhitespaceAppend(w1, a);
    AllWhitespaceAppend(b, w2);
    Regroup(w1, a, r, b, w2);
    TrimUnique(w1 + a, r, b + w2);
  }

  /** `s` is its trimmed text with whitespace on either side. */
  lemma TrimParts(s: string) returns (a: string, b: string)
    ensures AllWhitespace(a) && AllWhitespace(b) && s == a + Trim(s) + b
  {
    TrimInfix(s);
    var i := LeadingWhitespace(s);
    a, b := s[..i], s[i + |Trim(s)|..];
  }

  lemma Regroup(w1: string, a: string, r: string, b: string, w2: string)
    ensures w1 + (a + r + b) + w2 == (w1 + a) + r + (b + w2)
  {
  }

  /** A whitespace character at the front does not change what `trim()` returns. */
  lemma TrimHead(c: char, t: string)
    requires IsWhitespace(c)
    ensures Trim([c] + t) == Trim(t)
  {
    assert [c] + t + [] == [c] + t;
    TrimPadding([c], t, []);
  }

  /** A whitespace character at the end does not change what `trim()` returns. */
  lemma TrimLast(t: string, c: char)
    requires IsWhitespace(c)
    ensures Trim(t + [c]) == Trim(t)
  {
    assert [] + t + [c] == t + [c];
    TrimPadding([], t, [c]);
  }

  lemma AllWhitespaceAppend(a: string, b: string)
    requires AllWhitespace(a) && AllWhitespace(b)
    ensures AllWhitespace(a + b)
  {
    forall k | 0 <= k < |a + b| ensures IsWhitespace((a + b)[k]) {
      if k >= |a| { assert (a + b)[k] == b[k - |a|]; }
    }
  }

  /** Trimming a piece without delimiters leaves none. */
  lemma TrimNoDelimiter(s: string)
    requires NoDelimiter(s)
    ensures NoDelimiter(Trim(s))
  {
    TrimInfix(s);
    var i := LeadingWhitespace(s);
    var t := Trim(s);
    forall k | 0 <= k < |t| ensures !IsDelimiter(t[k]) {
      assert t[k] == s[i + k];
    }
  }

  // ---------------------------------------------------------------------
  // Properties of cleaning

  /** Cleaning is positional: pieces are neither reordered nor merged, and
      equal tokens are all kept. */
  lemma {:induction false} CleanAppend(a: seq<string>, b: seq<string>)
    ensures Clean(a + b) == Clean(a) + Clean(b)
    decreases |a|
  {
    if a == [] {
      assert a + b == b;
    } else {
      assert (a + b)[0] == a[0];
      assert (a + b)[1..] == a[1..] + b;
      CleanAppend(a[1..], b);
    }
  }

  /** Cleaning one piece and then the rest. */
  lemma CleanCons(x: string, rest: seq<string>)
    ensures Clean([x] + rest) == (if Trim(x) == [] then [] else [Trim(x)]) + Clean(rest)
  {
    assert ([x] + rest)[1..] == rest;
  }

  /** Every cleaned piece is non-empty and trimmed. */
  lemma {:induction false} CleanTrimmed(segs: seq<string>)
    ensures forall k :: 0 <= k < |Clean(segs)| ==> |Clean(segs)[k]| > 0 && IsTrimmed(Clean(segs)[k])
    decreases |segs|
  {
    if segs != [] {
      CleanTrimmed(segs[1..]);
    }
  }

  lemma {:induction false} CleanNoDelimiter(segs: seq<string>)
    requires forall j :: 0 <= j < |segs| ==> NoDelimiter(segs[j])
    ensures forall k :: 0 <= k < |Clean(segs)| ==> NoDelimiter(Clean(segs)[k])
    decreases |segs|
  {
    if segs != [] {
      CleanNoDelimiter(segs[1..]);
      TrimNoDelimiter(segs[0]);
    }
  }

  // ---------------------------------------------------------------------
  // Tokenization, characterized: a piece without delimiters gives its
  // trimmed text (if any), and a delimiter cuts the text into two parts
  // that are tokenized independently.

  /** Every token is non-empty, trimmed and free of delimiters. */
  lemma TokenizeYieldsTokens(s: string)
    ensures forall k :: 0 <= k < |Tokenize(s)| ==> IsToken(Tokenize(s)[k])
  {
    SplitPieces(s);
    CleanTrimmed(Split(s));
    CleanNoDelimiter(Split(s));
  }

  /** Text without delimiters gives its trimmed text, unless that is empty. */
  lemma TokenizePiece(s: string)
    requires NoDelimiter(s)
    ensures Tokenize(s) == if Trim(s) == [] then [] else [Trim(s)]
  {
    SplitNoDelimiter(s);
    CleanCons(s, []);
  }

  /** A token on its own tokenizes to itself. */
  lemma TokenizeToken(t: string)
    requires IsToken(t)
    ensures Tokenize(t) == [t]
  {
    TokenizePiece(t);
    TrimIdentity(t);
  }

  /** A delimiter at the front is dropped. */
  lemma DelimiterHead(d: char, y: string)
    requires IsDelimiter(d)
    ensures Tokenize([d] + y) == Tokenize(y)
  {
    var s := [d] + y;
    assert s[0] == d && s[1..] == y;
    assert Split(s) == [""] + Split(SkipDelimiters(y));
    TrimBlank("");
    CleanCons("", Split(SkipDelimiters(y)));
  }

  lemma DelimiterCutsPiece(x: string, d: char, y: string)
    requires NoDelimiter(x) && IsDelimiter(d)
    ensures Tokenize(x + [d] + y) == Tokenize(x) + Tokenize(y)
  {
    var z := [d] + y;
    assert x + [d] + y == x + z;
    assert z[0] == d && z[1..] == y;
    SplitAtDelimiter(x, z);
    SplitNoDelimiter(x);
    CleanAppend([x], Split(SkipDelimiters(z)));
    DelimiterHead(d, y);
    TrimBlank("");
    CleanCons("", Split(SkipDelimiters(z)));
  }

  /** Every delimiter cuts: the tokens of `x + d + y` are those of `x`
      followed by those of `y`. */
  lemma {:induction false} DelimiterCuts(x: string, d: char, y: string)
    requires IsDelimiter(d)
    ensures Tokenize(x + [d] + y) == Tokenize(x) + Tokenize(y)
    decreases |x|
  {
    var n := DelimiterFreePrefix(x);
    if n == |x| {
      DelimiterCutsPiece(x, d, y);
    } else {
      var x0, e, x1 := x[..n], x[n], x[n + 1..];
      assert x == x0 + [e] + x1;
      DelimiterCuts(x1, d, y);
      DelimiterCutsStep(x0, e, x1, d, y);
    }
  }

  lemma DelimiterCutsStep(x0: string, e: char, x1: string, d: char, y: string)
    requires NoDelimiter(x0) && IsDelimiter(e) && IsDelimiter(d)
    requires Tokenize(x1 + [d] + y) == Tokenize(x1) + Tokenize(y)
    ensures Tokenize(x0 + [e] + x1 + [d] + y) == Tokenize(x0 + [e] + x1) + Tokenize(y)
  {
    var u := x1 + [d] + y;
    assert x0 + [e] + x1 + [d] + y == x0 + [e] + u;
    DelimiterCutsPiece(x0, e, x1);
    DelimiterCutsPiece(x0, e, u);
    ConcatAssoc(Tokenize(x0), Tokenize(x1), Tokenize(y));
  }

  lemma ConcatAssoc(a: seq<string>, b: seq<string>, c: seq<string>)
    ensures a + (b + c) == a + b + c
  {
  }

  lemma WhitespaceHeadPiece(c: char, t: string)
    requires IsWhitespace(c) && !IsDelimiter(c) && NoDelimiter(t)
    ensures Tokenize([c] + t) == Tokenize(t)
  {
    ConsNoDelimiter(c, t);
    TokenizePiece([c] + t);
    TokenizePiece(t);
    TrimHead(c, t);
  }

  lemma ConsNoDelimiter(c: char, t: string)
    requires !IsDelimiter(c) && NoDelimiter(t)
    ensures NoDelimiter([c] + t) && NoDelimiter(t + [c])
  {
    assert forall k :: 0 < k <= |t| ==> ([c] + t)[k] == t[k - 1];
    assert forall k :: 0 <= k < |t| ==> (t + [c])[k] == t[k];
  }

  /** A whitespace or delimiter character at the front is dropped. */
  lemma FillerHead(c: char, t: string)
    requires IsFiller(c)
    ensures Tokenize([c] + t) == Tokenize(t)
  {
    if IsDelimiter(c) {
      DelimiterHead(c, t);
    } else {
      var n := DelimiterFreePrefix(t);
      if n == |t| {
        WhitespaceHeadPiece(c, t);
      } else {
        var t0, e, t1 := t[..n], t[n], t[n + 1..];
        assert t == t0 + [e] + t1;
        assert [c] + t == ([c] + t0) + [e] + t1;
        WhitespaceHeadPiece(c, t0);
        ConsNoDelimiter(c, t0);
        DelimiterCutsPiece([c] + t0, e, t1);
        DelimiterCutsPiece(t0, e, t1);
      }
    }
  }

  lemma WhitespaceTailPiece(t: string, c: char)
    requires IsWhitespace(c) && !IsDelimiter(c) && NoDelimiter(t)
    ensures Tokenize(t + [c]) == Tokenize(t)
  {
    ConsNoDelimiter(c, t);
    TokenizePiece(t + [c]);
    TokenizePiece(t);
    TrimLast(t, c);
  }

  /** A whitespace or delimiter character at the end is dropped. */
  lemma {:induction false} FillerTail(t: string, c: char)
    requires IsFiller(c)
    ensures Tokenize(t + [c]) == Tokenize(t)
    decreases |t|
  {
    if IsDelimiter(c) {
      DelimiterCuts(t, c, []);
      assert t + [c] + [] == t + [c];
      TokenizePiece([]);
    } else {
      var n := DelimiterFreePrefix(t);
      if n == |t| {
        WhitespaceTailPiece(t, c);
      } else {
        var t0, e, t1 := t[..n], t[n], t[n + 1..];
        assert t == t0 + [e] + t1;
        assert t + [c] == t0 + [e] + (t1 + [c]);
        DelimiterCutsPiece(t0, e, t1);
        DelimiterCutsPiece(t0, e, t1 + [c]);
        FillerTail(t1, c);
      }
    }
  }

  /** Whitespace and delimiters before the text do not change its tokens. */
  lemma {:induction false} FillerPrefix(b: string, s: string)
    requires AllFiller(b)
    ensures Tokenize(b + s) == Tokenize(s)
    decreases |b|
  {
    if b == [] {
      assert b + s == s;
    } else {
      assert b + s == [b[0]] + (b[1..] + s);
      FillerHead(b[0], b[1..] + s);
      FillerPrefix(b[1..], s);
    }
  }

  /** Whitespace and delimiters after the text do not change its tokens. */
  lemma {:induction false} FillerSuffix(s: string, b: string)
    requires AllFiller(b)
    ensures Tokenize(s + b) == Tokenize(s)
    decreases |b|
  {
    if b == [] {
      assert s + b == s;
    } else {
      var b' := b[..|b| - 1];
      assert s + b == (s + b') + [b[|b| - 1]];
      FillerTail(s + b', b[|b| - 1]);
      FillerSuffix(s, b');
    }
  }

  /** Text has no tokens exactly when it is made only of whitespace and
      delimiters. */
  lemma TokenizeEmptyIffFiller(s: string)
    ensures Tokenize(s) == [] <==> AllFiller(s)
  {
    if AllFiller(s) {
      FillerPrefix(s, []);
      assert s + [] == s;
      TokenizePiece([]);
    } else {
      var i :| 0 <= i < |s| && !IsFiller(s[i]);
      NonFillerSurvives(s, i);
    }
  }

  lemma {:induction false} NonFillerSurvives(s: string, i: nat)
    requires i < |s| && !IsFiller(s[i])
    ensures Tokenize(s) != []
    decreases |s|
  {
    var n := DelimiterFreePrefix(s);
    if n == |s| {
      NonFillerPiece(s, i);
    } else if i < n {
      CutAt(s, n);
      assert s[..n][i] == s[i];
      NonFillerPiece(s[..n], i);
    } else {
      CutAt(s, n);
      assert s[n + 1..][i - n - 1] == s[i];
      NonFillerSurvives(s[n + 1..], i - n - 1);
    }
  }

  lemma NonFillerPiece(p: string, i: nat)
    requires NoDelimiter(p) && i < |p| && !IsFiller(p[i])
    ensures Tokenize(p) != []
  {
    TrimEmptyIffBlank(p);
    TokenizePiece(p);
  }

  /** The delimiter at position `n` cuts the text there. */
  lemma CutAt(s: string, n: nat)
    requires n < |s| && IsDelimiter(s[n])
    ensures Tokenize(s) == Tokenize(s[..n]) + Tokenize(s[n + 1..])
  {
    assert s == s[..n] + [s[n]] + s[n + 1..];
    DelimiterCuts(s[..n], s[n], s[n + 1..]);
  }

  /** Blank text (only whitespace, newlines included) has no token. */
  lemma BlankHasNoTokens(s: string)
    requires AllWhitespace(s)
    ensures Tokenize(s) == []
  {
    TokenizeEmptyIffFiller(s);
  }

  /** Text with a token is never blank ... */
  lemma TokensImplyNonBlank(s: string)
    ensures Tokenize(s) != [] ==> Trim(s) != []
  {
    if Trim(s) == [] {
      TrimEmptyIffBlank(s);
      BlankHasNoTokens(s);
    }
  }

  /** ... and the converse fails: a lone comma is not blank yet has no token. */
  lemma LoneDelimiterIsNotBlank(s: string)
    requires s == ","
    ensures Trim(s) != [] && Tokenize(s) == []
  {
    assert !IsWhitespace(s[0]);
    TrimEmptyIffBlank(s);
    TokenizeEmptyIffFiller(s);
  }

  // ---------------------------------------------------------------------
  // The round trip

  /** Tokens joined by separators, with any whitespace and delimiters
      before the first and after the last, tokenize back to exactly those
      tokens, in order and with duplicates. */
  lemma TokenizeJoin(pad: string, ts: seq<string>, seps: seq<string>, tail: string)
    requires AllFiller(pad) && AllFiller(tail)
    requires |ts| <= |seps| + 1
    requires forall k :: 0 <= k < |ts| ==> IsToken(ts[k])
    requires forall k :: 0 <= k < |seps| ==> IsSeparator(seps[k])
    ensures Tokenize(pad + Join(ts, seps) + tail) == ts
  {
    assert pad + Join(ts, seps) + tail == pad + (Join(ts, seps) + tail);
    FillerPrefix(pad, Join(ts, seps) + tail);
    JoinThenFiller(ts, seps, tail);
  }

  lemma {:induction false} JoinThenFiller(ts: seq<string>, seps: seq<string>, tail: string)
    requires AllFiller(tail)
    requires |ts| <= |seps| + 1
    requires forall k :: 0 <= k < |ts| ==> IsToken(ts[k])
    requires forall k :: 0 <= k < |seps| ==> IsSeparator(seps[k])
    ensures Tokenize(Join(ts, seps) + tail) == ts
    decreases |ts|
  {
    if |ts| == 0 {
      assert Join(ts, seps) + tail == tail;
      TokenizeEmptyIffFiller(tail);
    } else if |ts| == 1 {
      FillerSuffix(ts[0], tail);
      TokenizeToken(ts[0]);
    } else {
      JoinThenFiller(ts[1..], seps[1..], tail);
      JoinStep(ts, seps, tail);
    }
  }

  lemma JoinStep(ts: seq<string>, seps: seq<string>, tail: string)
    requires 2 <= |ts| <= |seps| + 1
    requires IsToken(ts[0]) && IsSeparator(seps[0])
    requires Tokenize(Join(ts[1..], seps[1..]) + tail) == ts[1..]
    ensures Tokenize(Join(ts, seps) + tail) == ts
  {
    var rest := Join(ts[1..], seps[1..]) + tail;
    JoinUnfold(ts, seps, tail);
    SeparatorCuts(ts[0], seps[0], rest);
    HeadTail(ts);
  }

  lemma HeadTail(ts: seq<string>)
    requires |ts| > 0
    ensures [ts[0]] + ts[1..] == ts
  {
  }

  lemma JoinUnfold(ts: seq<string>, seps: seq<string>, tail: string)
    requires 2 <= |ts| <= |seps| + 1
    ensures Join(ts, seps) + tail == ts[0] + seps[0] + (Join(ts[1..], seps[1..]) + tail)
  {
  }

  /** A separator after a token cuts the text after that token. */
  lemma SeparatorCuts(t: string, sep: string, rest: string)
    requires IsToken(t) && IsSeparator(sep)
    ensures Tokenize(t + sep + rest) == [t] + Tokenize(rest)
  {
    var i :| 0 <= i < |sep| && IsDelimiter(sep[i]);
    SeparatorParts(sep, i);
    TokenCut(t, sep[..i], sep[i], sep[i + 1..], rest);
  }

  lemma SeparatorParts(sep: string, i: nat)
    requires AllFiller(sep) && i < |sep|
    ensures sep == sep[..i] + [sep[i]] + sep[i + 1..]
    ensures AllFiller(sep[..i]) && AllFiller(sep[i + 1..])
  {
    assert forall k :: 0 <= k < i ==> sep[..i][k] == sep[k];
    var w2 := sep[i + 1..];
    forall k | 0 <= k < |w2| ensures IsFiller(w2[k]) {
      assert w2[k] == sep[i + 1 + k];
    }
  }

  lemma TokenCut(t: string, w1: string, d: char, w2: string, rest: string)
    requires IsToken(t) && AllFiller(w1) && IsDelimiter(d) && AllFiller(w2)
    ensures Tokenize(t + (w1 + [d] + w2) + rest) == [t] + Tokenize(rest)
  {
    RegroupCut(t, w1, d, w2, rest);
    DelimiterCuts(t + w1, d, w2 + rest);
    FillerSuffix(t, w1);
    TokenizeToken(t);
    FillerPrefix(w2, rest);
  }

  lemma RegroupCut(t: string, w1: string, d: char, w2: string, rest: string)
    ensures t + (w1 + [d] + w2) + rest == (t + w1) + [d] + (w2 + rest)
  {
  }

  // ---------------------------------------------------------------------
  // Examples

  /** A space is not a delimiter: two codes separated only by a space are one token. */
  lemma SpaceDoesNotSplit(s: string)
    requires s == "30672-220 01001-000"
    ensures Tokenize(s) == [s]
  {
    assert IsToken(s);
    TokenizeToken(s);
  }

  /** The mixed-delimiter example: a comma-and-space and a newline. */
  lemma MixedDelimiters(text: string)
    requires text == "30672-220, 00000000\n123"
    ensures Tokenize(text) == ["30672-220", "00000000", "123"]
  {
    var ts := ["30672-220", "00000000", "123"];
    var seps := [", ", "\n"];
    SeparatorsOfExample(seps);
    TokensOfExample(ts);
    JoinOfExample(ts, seps);
    TokenizeJoin("", ts, seps, "");
  }

  lemma JoinOfExample(ts: seq<string>, seps: seq<string>)
    requires ts == ["30672-220", "00000000", "123"] && seps == [", ", "\n"]
    ensures "" + Join(ts, seps) + "" == "30672-220, 00000000\n123"
  {
    assert Join(ts[2..], seps[2..]) == "123";
    assert Join(ts[1..], seps[1..]) == "00000000\n123";
  }

  lemma SeparatorsOfExample(seps: seq<string>)
    requires |seps| == 2 && seps[0] == ", " && seps[1] == "\n"
    ensures forall k :: 0 <= k < |seps| ==> IsSeparator(seps[k])
  {
    forall k | 0 <= k < |seps|
      ensures IsSeparator(seps[k])
    {
      if k == 0 {
        CommaSpaceIsSeparator(seps[k]);
      } else {
        NewlineIsSeparator(seps[k]);
      }
    }
  }

  lemma CommaSpaceIsSeparator(sep: string)
    requires sep == ", "
    ensures IsSeparator(sep)
  {
    assert sep[0] == ',' && sep[1] == ' ';
    assert IsDelimiter(sep[0]);
  }

  lemma NewlineIsSeparator(sep: string)
    requires sep == "\n"
    ensures IsSeparator(sep)
  {
    assert sep[0] == '\n';
    assert IsDelimiter(sep[0]);
  }

  /** A pasted list: a space before the comma, a blank line between the
      codes, and a final newline. */
  lemma PastedList(text: string)
    requires text == " 30672-220 ,\n \n01001-000\n"
    ensures Tokenize(text) == ["30672-220", "01001-000"]
  {
    var ts := ["30672-220", "01001-000"];
    var seps := [" ,\n \n"];
    PastedSeparator(seps);
    PastedTokens(ts);
    PastedFiller(" ", "\n");
    PastedJoin(ts, seps);
    TokenizeJoin(" ", ts, seps, "\n");
  }

  lemma PastedSeparator(seps: seq<string>)
    requires |seps| == 1 && seps[0] == " ,\n \n"
    ensures forall k :: 0 <= k < |seps| ==> IsSeparator(seps[k])
  {
    var sep := seps[0];
    assert sep[0] == ' ' && sep[1] == ',' && sep[2] == '\n' && sep[3] == ' ' && sep[4] == '\n';
    assert IsDelimiter(sep[1]);
  }

  lemma PastedTokens(ts: seq<string>)
    requires ts == ["30672-220", "01001-000"]
    ensures forall k :: 0 <= k < |ts| ==> IsToken(ts[k])
  {
    assert IsToken("30672-220");
    assert IsToken("01001-000");
  }

  lemma PastedFiller(pad: string, tail: string)
    requires pad == " " && tail == "\n"
    ensures AllFiller(pad) && AllFiller(tail)
  {
    assert pad[0] == ' ' && tail[0] == '\n';
  }

  lemma PastedJoin(ts: seq<string>, seps: seq<string>)
    requires ts == ["30672-220", "01001-000"] && seps == [" ,\n \n"]
    ensures " " + Join(ts, seps) + "\n" == " 30672-220 ,\n \n01001-000\n"
  {
    assert Join(ts[1..], seps[1..]) == "01001-000";
  }

  lemma TokensOfExample(ts: seq<string>)
    requires ts == ["30672-220", "00000000", "123"]
    ensures forall k :: 0 <= k < |ts| ==> IsToken(ts[k])
  {
    assert IsToken("30672-220");
    assert IsToken("00000000");
    assert IsToken("123");
  }
}
