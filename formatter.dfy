/**
  The message formatter of `appendMessageToUI`: a chain of global regular
  expression replacements that turns a stored message into the HTML of a chat
  bubble.

    1. HTML escaping of `&`, `<`, `>` (in that order);
    2. extraction of fenced code blocks into a side list, each replaced by a
       numbered placeholder token;
    3. inline code spans and line breaks in the remaining text;
    4. substitution of every placeholder-shaped token by the wrapper markup of
       the block it names, which fails when the token names no block.

  Each regular expression is modelled by an explicit left-to-right scan that
  implements JavaScript's `String.prototype.replace` with the `g` flag: try to
  match at the current position; on a match emit the replacement and resume
  after it, otherwise copy one character and move on.
 */
module Formatter {
  import opened Wrappers
  import opened Strings

  predicate StartsWith(s: string, p: string) {
    |p| <= |s| && s[..|p|] == p
  }

  /** `s.replace(/c/g, r)` for a single character `c`. */
  function ReplaceAll(s: string, c: char, r: string): string
  {
    if s == [] then [] else (if s[0] == c then r else [s[0]]) + ReplaceAll(s[1..], c, r)
  }

  lemma {:induction false} ReplaceAllConcat(a: string, b: string, c: char, r: string)
    ensures ReplaceAll(a + b, c, r) == ReplaceAll(a, c, r) + ReplaceAll(b, c, r)
  {
    if a != [] {
      assert (a + b)[1..] == a[1..] + b;
      ReplaceAllConcat(a[1..], b, c, r);
    } else {
      assert a + b == b;
    }
  }

  lemma {:induction false} ReplaceAllAbsent(s: string, c: char, r: string)
    requires c !in s
    ensures ReplaceAll(s, c, r) == s
  {
    if s != [] {
      ReplaceAllAbsent(s[1..], c, r);
    }
  }

  // ---------------------------------------------------------------------
  // Step 1: escaping
  // ---------------------------------------------------------------------

  /** The three chained replacements of step 1, `&` first. */
  function Escape(s: string): string {
    ReplaceAll(ReplaceAll(ReplaceAll(s, '&', "&amp;"), '<', "&lt;"), '>', "&gt;")
  }

  /** What step 1 does to one character. */
  function EscapeChar(c: char): string {
    if c == '&' then "&amp;" else if c == '<' then "&lt;" else if c == '>' then "&gt;" else [c]
  }

  function EscapeChars(s: string): string {
    if s == [] then [] else EscapeChar(s[0]) + EscapeChars(s[1..])
  }

  lemma {:induction false} EscapeCharsConcat(a: string, b: string)
    ensures EscapeChars(a + b) == EscapeChars(a) + EscapeChars(b)
  {
    if a != [] {
      assert (a + b)[1..] == a[1..] + b;
      EscapeCharsConcat(a[1..], b);
    } else {
      assert a + b == b;
    }
  }

  /**
    Because `&` is replaced first, the chain of three replacements escapes
    each character independently: no entity introduced by one replacement is
    touched by a later one.
   */
  lemma {:induction false} EscapeByChar(s: string)
    ensures Escape(s) == EscapeChars(s)
  {
    if s == [] {
      assert Escape(s) == [];
    } else {
      var x, t := s[0], s[1..];
      assert s == [x] + t;
      assert EscapeChars(s) == EscapeChar(x) + EscapeChars(t);
      EscapeConcat([x], t);
      EscapeOne(x);
      EscapeByChar(t);
    }
  }

  lemma EscapeConcat(a: string, b: string)
    ensures Escape(a + b) == Escape(a) + Escape(b)
  {
    var a1, b1 := ReplaceAll(a, '&', "&amp;"), ReplaceAll(b, '&', "&amp;");
    var a2, b2 := ReplaceAll(a1, '<', "&lt;"), ReplaceAll(b1, '<', "&lt;");
    ReplaceAllConcat(a, b, '&', "&amp;");
    ReplaceAllConcat(a1, b1, '<', "&lt;");
    ReplaceAllConcat(a2, b2, '>', "&gt;");
  }

  lemma EscapeOne(x: char)
    ensures Escape([x]) == EscapeChar(x)
  {
    if x == '&' {
      ReplaceAllOne(x, '&', "&amp;");
      ReplaceAllAbsent("&amp;", '<', "&lt;");
      ReplaceAllAbsent("&amp;", '>', "&gt;");
    } else if x == '<' {
      ReplaceAllOne(x, '&', "&amp;");
      ReplaceAllOne(x, '<', "&lt;");
      ReplaceAllAbsent("&lt;", '>', "&gt;");
    } else {
      EscapeOther(x);
    }
  }

  lemma EscapeOther(x: char)
    requires x != '&' && x != '<'
    ensures Escape([x]) == EscapeChar(x)
  {
    ReplaceAllOne(x, '&', "&amp;");
    ReplaceAllOne(x, '<', "&lt;");
    ReplaceAllOne(x, '>', "&gt;");
  }

  lemma ReplaceAllOne(x: char, c: char, r: string)
    ensures ReplaceAll([x], c, r) == if x == c then r else [x]
  {
    assert [x][1..] == [];
  }

  /** Escaped text contains no angle bracket. */
  lemma {:induction false} EscapeNoAngles(s: string)
    ensures '<' !in Escape(s) && '>' !in Escape(s)
  {
    EscapeByChar(s);
    EscapeCharsNoAngles(s);
  }

  lemma {:induction false} EscapeCharsNoAngles(s: string)
    ensures '<' !in EscapeChars(s) && '>' !in EscapeChars(s)
  {
    if s != [] {
      EscapeCharsNoAngles(s[1..]);
    }
  }

  /**
    Decoding of the three entities step 1 produces, as an HTML parser does
    when it builds the `textContent` of the bubble.
   */
  function Unescape(s: string): string {
    if s == [] then []
    else if StartsWith(s, "&lt;") then "<" + Unescape(s[4..])
    else if StartsWith(s, "&gt;") then ">" + Unescape(s[4..])
    else if StartsWith(s, "&amp;") then "&" + Unescape(s[5..])
    else [s[0]] + Unescape(s[1..])
  }

  /** Escaping loses nothing: decoding the entities gives back the content. */
  lemma {:induction false} UnescapeEscape(s: string)
    ensures Unescape(Escape(s)) == s
  {
    EscapeByChar(s);
    UnescapeEscapeChars(s);
  }

  lemma {:induction false} UnescapeEscapeChars(s: string)
    ensures Unescape(EscapeChars(s)) == s
  {
    if s == [] {
      assert EscapeChars(s) == [];
    } else {
      var rest := EscapeChars(s[1..]);
      assert EscapeChars(s) == EscapeChar(s[0]) + rest;
      UnescapeEscapeChars(s[1..]);
      UnescapeEntity(s[0], rest);
      assert s == [s[0]] + s[1..];
    }
  }

  /** Decoding reads back one escaped character in front of any text. */
  lemma UnescapeEntity(c: char, rest: string)
    ensures Unescape(EscapeChar(c) + rest) == [c] + Unescape(rest)
  {
    if c == '&' {
      UnescapeAmp(rest);
    } else if c == '<' {
      UnescapeLt(rest);
    } else if c == '>' {
      UnescapeGt(rest);
    } else {
      UnescapeOther(c, rest);
    }
  }

  lemma UnescapeAmp(rest: string)
    ensures Unescape("&amp;" + rest) == "&" + Unescape(rest)
  {
    var t := "&amp;" + rest;
    assert t[..5] == "&amp;" && t[5..] == rest;
    assert t[..4][1] == 'a';
  }

  lemma UnescapeLt(rest: string)
    ensures Unescape("&lt;" + rest) == "<" + Unescape(rest)
  {
    var t := "&lt;" + rest;
    assert t[..4] == "&lt;" && t[4..] == rest;
  }

  lemma UnescapeGt(rest: string)
    ensures Unescape("&gt;" + rest) == ">" + Unescape(rest)
  {
    var t := "&gt;" + rest;
    assert t[..4] == "&gt;" && t[4..] == rest;
    assert t[..4][1] == 'g';
  }

  lemma UnescapeOther(c: char, rest: string)
    requires c != '&'
    ensures Unescape([c] + rest) == [c] + Unescape(rest)
  {
    var t := [c] + rest;
    assert t[0] == c && t[1..] == rest;
    if |t| >= 4 { assert t[..4][0] == c; }
    if |t| >= 5 { assert t[..5][0] == c; }
  }

  /**
    The order of the replacements matters: with `&` replaced last, the
    entities made for `<` are escaped a second time and decode to the wrong
    text.
   */
  lemma AmpersandLastDoubleEscapes()
    ensures var late := ReplaceAll(ReplaceAll(ReplaceAll("<", '<', "&lt;"), '>', "&gt;"), '&', "&amp;");
            late == "&amp;lt;" && Unescape(late) == "&lt;" && Escape("<") == "&lt;"
  {
    LateLess();
    LateKeepsEntity();
    LateAmpersand();
    UnescapeLateEntity();
    EscapeOne('<');
  }

  lemma LateLess()
    ensures ReplaceAll("<", '<', "&lt;") == "&lt;"
  {
  }

  lemma LateKeepsEntity()
    ensures ReplaceAll("&lt;", '>', "&gt;") == "&lt;"
  {
  }

  lemma LateAmpersand()
    ensures ReplaceAll("&lt;", '&', "&amp;") == "&amp;lt;"
  {
  }

  lemma UnescapeLateEntity()
    ensures Unescape("&amp;lt;") == "&lt;"
  {
    assert "&amp;lt;" == "&amp;" + "lt;";
    UnescapeAmp("lt;");
    UnescapePlain("lt;");
  }

  /** Text without `&` holds no entity. */
  lemma {:induction false} UnescapePlain(s: string)
    requires '&' !in s
    ensures Unescape(s) == s
  {
    if s != [] {
      UnescapeOther(s[0], s[1..]);
      UnescapePlain(s[1..]);
      assert s == [s[0]] + s[1..];
    }
  }

  // ---------------------------------------------------------------------
  // Step 2: fenced code blocks, /```(\w*)([\s\S]*?)```/g
  // ---------------------------------------------------------------------

  const Fence: string := "```"

  /** A fence starts at the beginning of `s`. */
  predicate FenceStart(s: string) {
    |s| >= 3 && s[0] == '`' && s[1] == '`' && s[2] == '`'
  }

  predicate AllWord(s: string) {
    forall i :: 0 <= i < |s| ==> IsWordChar(s[i])
  }

  /** The length of the longest prefix of word characters (`\w*`, greedy). */
  function WordRun(s: string): (n: nat)
    ensures n <= |s| && AllWord(s[..n])
    ensures n < |s| ==> !IsWordChar(s[n])
  {
    if s != [] && IsWordChar(s[0]) then
      var n := 1 + WordRun(s[1..]);
      assert forall i :: 1 <= i < n ==> s[..n][i] == s[1..][..n - 1][i - 1];
      n
    else 0
  }

  /** The first position at which a fence starts (the lazy `[\s\S]*?` stops there). */
  function FindFence(s: string): (r: Option<nat>)
    ensures r.Some? ==> r.value + 3 <= |s| && FenceStart(s[r.value..])
    ensures r.Some? ==> forall j {:trigger FenceStart(s[j..])} :: 0 <= j < r.value ==> !FenceStart(s[j..])
    ensures r.None? ==> forall j {:trigger FenceStart(s[j..])} :: 0 <= j <= |s| ==> !FenceStart(s[j..])
  {
    if |s| < 3 then None
    else if FenceStart(s) then Some(0)
    else match FindFence(s[1..])
      case Some(j) =>
        assert forall k :: 1 <= k <= j ==> s[k..] == s[1..][k - 1..];
        assert s[j + 1..] == s[1..][j..];
        Some(j + 1)
      case None =>
        assert forall k :: 1 <= k <= |s| ==> s[k..] == s[1..][k - 1..];
        None
  }

  lemma WordRunAt(s: string, i: nat)
    requires i < WordRun(s)
    ensures IsWordChar(s[i])
  {
    assert s[i] == s[..WordRun(s)][i];
  }

  lemma DropDrop<T>(s: seq<T>, a: nat, b: nat)
    requires a + b <= |s|
    ensures s[a..][b..] == s[a + b..]
  {
  }

  /** One fenced block: the language tag and the body between the fences. */
  datatype Block = Block(lang: string, code: string)

  /** A match of the fence expression: the captured block and the match length. */
  datatype FenceMatch = FenceMatch(block: Block, len: nat)

  /** The source text that a block was matched from. */
  function FenceSource(b: Block): string {
    Fence + b.lang + b.code + Fence
  }

  /**
    The fence expression anchored at the start of `s`. `\w*` takes the
    maximal run of word characters and the body ends at the first fence after
    it. Backtracking to a shorter tag cannot help: a fence cannot start
    inside a run of word characters.
   */
  function FenceAt(s: string): (m: Option<FenceMatch>)
    ensures m.Some? ==> 6 <= m.value.len <= |s|
  {
    FenceAtWithin(s, |s| + 1)
  }

  /**
    A countdown in front of `MatchFence`, from a bound the verifier cannot
    evaluate: proofs that need the match itself ask for it through
    `FenceAtUnfold`, the others keep `FenceAt` as a fact about `s`.
   */
  function FenceAtWithin(s: string, n: nat): (m: Option<FenceMatch>)
    ensures m.Some? ==> 6 <= m.value.len <= |s|
    decreases n
  {
    if n == 0 then MatchFence(s) else FenceAtWithin(s, n - 1)
  }

  lemma FenceAtWithinDown(s: string, n: nat)
    requires n > 0
    ensures FenceAtWithin(s, n) == FenceAtWithin(s, n - 1)
  {
  }

  lemma {:induction false} FenceAtWithinMatch(s: string, n: nat)
    ensures FenceAtWithin(s, n) == MatchFence(s)
    decreases n
  {
    if n > 0 {
      FenceAtWithinDown(s, n);
      FenceAtWithinMatch(s, n - 1);
    }
  }

  lemma FenceAtUnfold(s: string)
    ensures FenceAt(s) == MatchFence(s)
  {
    FenceAtWithinMatch(s, |s| + 1);
  }

  /** The expression tried at the start of `s`: an opening fence, then the tag. */
  function MatchFence(s: string): (m: Option<FenceMatch>)
    ensures m.Some? ==> 6 <= m.value.len <= |s|
  {
    if FenceStart(s) then TaggedFence(s, WordRun(s[3..])) else None
  }

  /** The rest of the match once the tag is known to take `k` characters. */
  function TaggedFence(s: string, k: nat): (m: Option<FenceMatch>)
    requires 3 + k <= |s|
    ensures m.Some? ==> 6 <= m.value.len <= |s|
  {
    match FindFence(s[3 + k..])
    case Some(j) => Some(FenceMatch(Block(s[3..3 + k], s[3 + k..3 + k + j]), 3 + k + j + 3))
    case None => None
  }

  /** A match spans exactly the source text of its block. */
  lemma FenceAtSource(s: string)
    requires FenceAt(s).Some?
    ensures s[..FenceAt(s).value.len] == FenceSource(FenceAt(s).value.block)
  {
    FenceAtUnfold(s);
    var k := WordRun(s[3..]);
    var j := FindFence(s[3 + k..]).value;
    DropDrop(s, 3 + k, j);
    FencedSlice(s, k, j);
  }

  lemma FenceIs(t: string)
    requires FenceStart(t)
    ensures t[..3] == Fence
  {
  }

  /** The text of a match: the opening fence, the tag, the body and the closing fence. */
  lemma FencedSlice(s: string, k: nat, j: nat)
    requires FenceStart(s) && 3 + k + j + 3 <= |s| && FenceStart(s[3 + k + j..])
    ensures s[..3 + k + j + 3] == Fence + s[3..3 + k] + s[3 + k..3 + k + j] + Fence
  {
    var n := 3 + k + j;
    FenceIs(s);
    FenceIs(s[n..]);
    assert s[n..][..3] == s[n..n + 3];
    assert s[..n + 3] == s[..3] + s[3..3 + k] + s[3 + k..n] + s[n..n + 3];
  }

  /**
    The shape the expression gives a block: the tag is all word characters
    and maximal (the body does not start with one), and the body is the
    shortest possible (no fence starts inside it).
   */
  predicate BlockShape(b: Block) {
    && AllWord(b.lang)
    && (b.code != [] ==> !IsWordChar(b.code[0]))
    && forall j {:trigger FenceStart((b.code + Fence)[j..])} :: 0 <= j < |b.code| ==> !FenceStart((b.code + Fence)[j..])
  }

  /** Whether a fence starts at position `n` depends only on the three characters there. */
  lemma FenceStartAgree(x: string, y: string, n: nat)
    requires n + 3 <= |x| && n + 3 <= |y|
    requires x[n] == y[n] && x[n + 1] == y[n + 1] && x[n + 2] == y[n + 2]
    ensures FenceStart(x[n..]) == FenceStart(y[n..])
  {
    assert x[n..][0] == x[n] && x[n..][1] == x[n + 1] && x[n..][2] == x[n + 2];
    assert y[n..][0] == y[n] && y[n..][1] == y[n + 1] && y[n..][2] == y[n + 2];
  }

  /** A successful match has the shape the expression demands. */
  lemma FenceAtSound(s: string)
    requires FenceAt(s).Some?
    ensures BlockShape(FenceAt(s).value.block)
  {
    FenceAtTag(s);
    FenceAtBody(s);
  }

  lemma FenceAtTag(s: string)
    requires FenceAt(s).Some?
    ensures AllWord(FenceAt(s).value.block.lang)
    ensures var c := FenceAt(s).value.block.code; c != [] ==> !IsWordChar(c[0])
  {
    FenceAtUnfold(s);
    var k := WordRun(s[3..]);
    var b := FenceAt(s).value.block;
    assert b.lang == s[3..][..k];
    if b.code != [] {
      assert b.code[0] == s[3..][k];
    }
  }

  lemma FenceAtBody(s: string)
    requires FenceAt(s).Some?
    ensures var c := FenceAt(s).value.block.code;
            forall j {:trigger FenceStart((c + Fence)[j..])} :: 0 <= j < |c| ==> !FenceStart((c + Fence)[j..])
  {
    FenceAtUnfold(s);
    var k := WordRun(s[3..]);
    var t := s[3 + k..];
    var j := FindFence(t).value;
    var c := FenceAt(s).value.block.code;
    assert c == t[..j];
    BodyBeforeFence(t, j);
  }

  /** The body found by the lazy scan, followed by its closing fence, contains no earlier fence. */
  lemma BodyBeforeFence(t: string, j: nat)
    requires FindFence(t) == Some(j)
    ensures forall i {:trigger FenceStart((t[..j] + Fence)[i..])} :: 0 <= i < j ==> !FenceStart((t[..j] + Fence)[i..])
  {
    var u := t[..j] + Fence;
    assert forall m :: 0 <= m < j + 3 ==> u[m] == t[m] by {
      assert FenceStart(t[j..]);
      assert t[j..][0] == t[j] && t[j..][1] == t[j + 1] && t[j..][2] == t[j + 2];
    }
    forall i | 0 <= i < j ensures !FenceStart(u[i..]) {
      assert !FenceStart(t[i..]);
      FenceStartAgree(u, t, i);
    }
  }

  /**
    When the expression finds no match at the start of `s`, there is none
    at all: no choice of a word-character tag and a body makes `s` start
    with a complete fenced block. With `FenceAtSound` this makes `FenceAt` an
    exact account of the expression, backtracking included.
   */
  lemma FenceAtComplete(s: string, lang: string, code: string)
    requires FenceAt(s).None? && AllWord(lang)
    ensures !StartsWith(s, Fence + lang + code + Fence)
  {
    var src := Fence + lang + code + Fence;
    if StartsWith(s, src) {
      var q := 3 + |lang| + |code|;
      FencedText(s, src, q);
      FenceOpensBeforeLaterFence(s, q);
    }
  }

  /** The characters of a fenced block's source at its two fences. */
  lemma FencedText(s: string, src: string, q: nat)
    requires StartsWith(s, src) && 6 <= |src| && q == |src| - 3
    requires src[..3] == Fence && src[q..] == Fence
    ensures FenceStart(s) && FenceStart(s[q..])
  {
    assert s[..|src|] == src;
    assert forall i :: 0 <= i < |src| ==> s[i] == src[i] by {
      assert forall i :: 0 <= i < |src| ==> s[..|src|][i] == s[i];
    }
    assert src[0] == src[..3][0] && src[1] == src[..3][1] && src[2] == src[..3][2];
    assert src[q] == src[q..][0] && src[q + 1] == src[q..][1] && src[q + 2] == src[q..][2];
    assert s[q..][0] == s[q] && s[q..][1] == s[q + 1] && s[q..][2] == s[q + 2];
  }

  /**
    A fence followed, anywhere at least three characters later, by another
    fence always opens a block (with an empty tag if need be): the later
    fence cannot lie inside the tag's run of word characters, so the lazy
    body stops at it or earlier.
   */
  lemma FenceOpensBeforeLaterFence(s: string, c: nat)
    requires FenceStart(s) && 3 <= c <= |s| && FenceStart(s[c..])
    ensures FenceAt(s).Some?
  {
    FenceAtUnfold(s);
    var k := WordRun(s[3..]);
    assert 3 + k <= c by {
      if c < 3 + k {
        WordRunAt(s[3..], c - 3);
      }
    }
    DropDrop(s, 3 + k, c - 3 - k);
  }

  /** `xs[0] + ys[0] + xs[1] + ys[1] + ... + xs[n]`. */
  function Interleave(xs: seq<string>, ys: seq<string>): string
    requires |xs| == |ys| + 1
    decreases |ys|
  {
    if ys == [] then xs[0] else xs[0] + ys[0] + Interleave(xs[1..], ys[1..])
  }

  lemma InterleavePrepend(p: string, xs: seq<string>, ys: seq<string>)
    requires |xs| == |ys| + 1
    ensures Interleave([p + xs[0]] + xs[1..], ys) == p + Interleave(xs, ys)
  {
    var xs' := [p + xs[0]] + xs[1..];
    assert xs'[1..] == xs[1..];
  }

  /**
    The result of step 2 split at the blocks: `texts[i]` is the text before
    block `i`, and the last text follows the last block.
   */
  datatype Fenced = Fenced(texts: seq<string>, blocks: seq<Block>)

  /**
    Step 2's scan; the text left in place is rebuilt by `Placeheld`. The
    scan itself is `ExtractStep`; `ExtractWithin` counts down from a bound
    the verifier cannot evaluate, so that it unfolds the scan only where a
    proof asks for it through `ExtractUnfold`.
   */
  function Extract(s: string): (f: Fenced)
    ensures |f.texts| == |f.blocks| + 1
    ensures forall i :: 0 <= i < |f.blocks| ==> BlockShape(f.blocks[i])
    decreases |s|, |s| + 3
  {
    ExtractWithin(s, |s| + 1)
  }

  function ExtractWithin(s: string, n: nat): (f: Fenced)
    requires n <= |s| + 1
    ensures |f.texts| == |f.blocks| + 1
    ensures forall i :: 0 <= i < |f.blocks| ==> BlockShape(f.blocks[i])
    decreases |s|, n + 1
  {
    if n == 0 then ExtractStep(s) else ExtractWithin(s, n - 1)
  }

  lemma {:induction false} ExtractWithinStep(s: string, n: nat)
    requires n <= |s| + 1
    ensures ExtractWithin(s, n) == ExtractStep(s)
    decreases n
  {
    if n > 0 {
      ExtractWithinDown(s, n);
      ExtractWithinStep(s, n - 1);
    }
  }

  lemma ExtractWithinDown(s: string, n: nat)
    requires 0 < n <= |s| + 1
    ensures ExtractWithin(s, n) == ExtractWithin(s, n - 1)
  {
  }

  lemma ExtractUnfold(s: string)
    ensures Extract(s) == ExtractStep(s)
  {
    ExtractWithinStep(s, |s| + 1);
  }

  /** One step of the scan: a block at the front, or one character kept. */
  function ExtractStep(s: string): (f: Fenced)
    ensures |f.texts| == |f.blocks| + 1
    ensures forall i :: 0 <= i < |f.blocks| ==> BlockShape(f.blocks[i])
    decreases |s|, 0
  {
    if s == [] then Fenced([""], [])
    else match FenceAt(s)
      case Some(m) =>
        FenceAtSound(s);
        var r := Extract(s[m.len..]);
        Fenced([""] + r.texts, [m.block] + r.blocks)
      case None =>
        var r := Extract(s[1..]);
        Fenced([[s[0]] + r.texts[0]] + r.texts[1..], r.blocks)
  }

  lemma ExtractBlockCase(s: string, m: FenceMatch)
    requires FenceAt(s) == Some(m)
    ensures Extract(s) == Fenced([""] + Extract(s[m.len..]).texts, [m.block] + Extract(s[m.len..]).blocks)
  {
    ExtractUnfold(s);
  }

  lemma ExtractCharCase(s: string)
    requires s != [] && FenceAt(s).None?
    ensures Extract(s) == Fenced([[s[0]] + Extract(s[1..]).texts[0]] + Extract(s[1..]).texts[1..], Extract(s[1..]).blocks)
  {
    ExtractUnfold(s);
  }

  lemma ExtractEmpty()
    ensures Extract([]) == Fenced([""], [])
  {
    ExtractUnfold([]);
  }

  function Sources(bs: seq<Block>): (r: seq<string>)
    ensures |r| == |bs|
  {
    if bs == [] then [] else [FenceSource(bs[0])] + Sources(bs[1..])
  }

  /** The text the blocks were cut from, with every block put back as written. */
  function Unfence(f: Fenced): string
    requires |f.texts| == |f.blocks| + 1
  {
    Interleave(f.texts, Sources(f.blocks))
  }

  lemma UnfenceHead(f: Fenced)
    requires |f.texts| == |f.blocks| + 1 && |f.blocks| > 0
    ensures Unfence(f) == f.texts[0] + FenceSource(f.blocks[0]) + Unfence(Fenced(f.texts[1..], f.blocks[1..]))
  {
  }

  /** Extraction loses nothing: putting every block back gives the input. */
  lemma {:induction false} ExtractRoundTrip(s: string)
    ensures Unfence(Extract(s)) == s
    decreases |s|
  {
    if s == [] {
      ExtractEmpty();
    } else {
      var m := FenceAt(s);
      if m.Some? {
        ExtractRoundTrip(s[m.value.len..]);
        RoundTripBlock(s, m.value, Extract(s[m.value.len..]));
      } else {
        ExtractRoundTrip(s[1..]);
        RoundTripChar(s, Extract(s[1..]));
      }
    }
  }

  lemma RoundTripBlock(s: string, m: FenceMatch, r: Fenced)
    requires FenceAt(s) == Some(m) && r == Extract(s[m.len..]) && Unfence(r) == s[m.len..]
    ensures Unfence(Extract(s)) == s
  {
    ExtractBlockCase(s, m);
    UnfenceBlockFirst(m.block, r);
    FenceAtSource(s);
    assert s == s[..m.len] + s[m.len..];
  }

  lemma UnfenceBlockFirst(b: Block, r: Fenced)
    requires |r.texts| == |r.blocks| + 1
    ensures Unfence(Fenced([""] + r.texts, [b] + r.blocks)) == FenceSource(b) + Unfence(r)
  {
    var f := Fenced([""] + r.texts, [b] + r.blocks);
    assert f.texts[1..] == r.texts && f.blocks[1..] == r.blocks;
    UnfenceHead(f);
  }

  lemma RoundTripChar(s: string, r: Fenced)
    requires s != [] && FenceAt(s).None? && r == Extract(s[1..]) && Unfence(r) == s[1..]
    ensures Unfence(Extract(s)) == s
  {
    ExtractCharCase(s);
    InterleavePrepend([s[0]], r.texts, Sources(r.blocks));
    assert s == [s[0]] + s[1..];
  }

  /** No fence starts inside `t`, even one overlapping the fence that follows it. */
  predicate NoFenceStart(t: string) {
    forall j {:trigger FenceStart((t + Fence)[j..])} :: 0 <= j < |t| ==> !FenceStart((t + Fence)[j..])
  }

  /** The fence expression matches at no position of `t`. */
  predicate NoMatch(t: string) {
    forall j {:trigger FenceAt(t[j..])} :: 0 <= j < |t| ==> FenceAt(t[j..]).None?
  }

  /**
    What extraction leaves as text: before a block, no fence starts at all
    (the scan is leftmost-first); after the last block, no complete fenced
    block is left, so an unclosed fence stays literal.
   */
  lemma {:induction false} ExtractTexts(s: string)
    ensures TextsShape(Extract(s))
    decreases |s|
  {
    if s == [] {
      ExtractEmpty();
    } else {
      var m := FenceAt(s);
      if m.Some? {
        ExtractTexts(s[m.value.len..]);
        TextsShapeBlock(s, m.value, Extract(s[m.value.len..]));
      } else {
        ExtractTexts(s[1..]);
        ExtractRoundTrip(s[1..]);
        TextsShapeChar(s, Extract(s[1..]));
      }
    }
  }

  predicate TextsShape(f: Fenced)
    requires |f.texts| == |f.blocks| + 1
  {
    && (forall i :: 0 <= i < |f.blocks| ==> NoFenceStart(f.texts[i]))
    && NoMatch(f.texts[|f.blocks|])
  }

  lemma TextsShapeBlock(s: string, m: FenceMatch, r: Fenced)
    requires FenceAt(s) == Some(m) && r == Extract(s[m.len..]) && TextsShape(r)
    ensures TextsShape(Extract(s))
  {
    ExtractBlockCase(s, m);
    ShapeConsBlock(m.block, r);
  }

  lemma ShapeConsBlock(b: Block, r: Fenced)
    requires |r.texts| == |r.blocks| + 1 && TextsShape(r)
    ensures TextsShape(Fenced([""] + r.texts, [b] + r.blocks))
  {
    var f := Fenced([""] + r.texts, [b] + r.blocks);
    assert f.texts[0] == "";
    forall i | 1 <= i < |f.blocks| ensures NoFenceStart(f.texts[i]) {
      assert f.texts[i] == r.texts[i - 1];
    }
    assert f.texts[|f.blocks|] == r.texts[|r.blocks|];
  }

  lemma TextsShapeChar(s: string, r: Fenced)
    requires s != [] && FenceAt(s).None? && r == Extract(s[1..])
    requires Unfence(r) == s[1..] && TextsShape(r)
    ensures TextsShape(Extract(s))
  {
    ExtractCharCase(s);
    if |r.blocks| == 0 {
      LastTextNoMatch(s, r);
    } else {
      FirstTextNoFenceStart(s, r);
    }
    ShapeConsChar(s[0], r);
  }

  /** Putting a character in front of the first text keeps the shape, given the first text's own condition. */
  lemma ShapeConsChar(c: char, r: Fenced)
    requires |r.texts| == |r.blocks| + 1 && TextsShape(r)
    requires |r.blocks| == 0 ==> NoMatch([c] + r.texts[0])
    requires |r.blocks| > 0 ==> NoFenceStart([c] + r.texts[0])
    ensures TextsShape(Fenced([[c] + r.texts[0]] + r.texts[1..], r.blocks))
  {
    var f := Fenced([[c] + r.texts[0]] + r.texts[1..], r.blocks);
    forall i | 0 <= i < |f.blocks| ensures NoFenceStart(f.texts[i]) {
      if i > 0 {
        assert f.texts[i] == r.texts[i];
      }
    }
    if |r.blocks| > 0 {
      assert f.texts[|f.blocks|] == r.texts[|r.blocks|];
    }
  }

  lemma LastTextNoMatch(s: string, r: Fenced)
    requires |r.texts| == 1 && |r.blocks| == 0
    requires s != [] && FenceAt(s).None? && Unfence(r) == s[1..] && NoMatch(r.texts[0])
    ensures NoMatch([s[0]] + r.texts[0])
  {
    var t0 := [s[0]] + r.texts[0];
    assert t0 == s;
    forall j | 0 <= j < |t0| ensures FenceAt(t0[j..]).None? {
      if j > 0 { assert t0[j..] == r.texts[0][j - 1..]; }
    }
  }

  lemma FirstTextNoFenceStart(s: string, r: Fenced)
    requires s != [] && FenceAt(s).None? && r == Extract(s[1..]) && Unfence(r) == s[1..]
    requires |r.blocks| > 0 && NoFenceStart(r.texts[0])
    ensures NoFenceStart([s[0]] + r.texts[0])
  {
    var t0 := [s[0]] + r.texts[0];
    forall j | 0 <= j < |t0| ensures !FenceStart((t0 + Fence)[j..]) {
      if j > 0 {
        assert (t0 + Fence)[j..] == (r.texts[0] + Fence)[j - 1..];
      } else {
        FirstTextNoFence(s, r);
      }
    }
  }

  /** The case j = 0 of `ExtractTexts` when a block follows. */
  lemma FirstTextNoFence(s: string, r: Fenced)
    requires s != [] && FenceAt(s).None?
    requires r == Extract(s[1..]) && Unfence(r) == s[1..] && |r.blocks| > 0
    ensures !FenceStart([s[0]] + r.texts[0] + Fence)
  {
    var b := r.blocks[0];
    UnfenceHead(r);
    var before := [s[0]] + r.texts[0];
    var rest := Unfence(Fenced(r.texts[1..], r.blocks[1..]));
    assert s == before + FenceSource(b) + rest;
    var c := |before| + 3 + |b.lang| + |b.code|;
    assert s[c..][..3] == Fence;
    if FenceStart(before + Fence) {
      assert s[..3] == (before + Fence)[..3];
      FenceOpensBeforeLaterFence(s, c);
      assert false;
    }
  }

  /** Extraction numbers the blocks from zero in the order the scan finds them. */
  const TokenPrefix: string := "___CODE_BLOCK_"
  const TokenSuffix: string := "___"

  /** The token that stands for block `i` between steps 2 and 4. */
  function Placeholder(i: nat): string {
    TokenPrefix + NatToString(i) + TokenSuffix
  }

  function Placeholders(k: nat, n: nat): (r: seq<string>)
    ensures |r| == n
    decreases n
  {
    if n == 0 then [] else [Placeholder(k)] + Placeholders(k + 1, n - 1)
  }

  /**
    The text at the end of step 2: the text left by the scan with the i-th
    block replaced by `Placeholder(i)`.
   */
  function Placeheld(f: Fenced): string
    requires |f.texts| == |f.blocks| + 1
  {
    Interleave(f.texts, Placeholders(0, |f.blocks|))
  }

  /** The i-th block found is replaced by the placeholder numbered i. */
  lemma {:induction false} PlaceholderNumbering(k: nat, n: nat, i: nat)
    requires i < n
    ensures Placeholders(k, n)[i] == Placeholder(k + i)
    decreases n
  {
    if i > 0 {
      PlaceholderNumbering(k + 1, n - 1, i - 1);
    }
  }

  // ---------------------------------------------------------------------
  // Step 3: inline code, /`([^`]+)`/g -> <code>$1</code>, then /\n/g -> <br>
  // ---------------------------------------------------------------------

  /** The index of the first backtick. */
  function NextBacktick(s: string): (r: Option<nat>)
    ensures r.Some? ==> r.value < |s| && s[r.value] == '`'
    ensures r.Some? ==> forall j :: 0 <= j < r.value ==> s[j] != '`'
    ensures r.None? ==> '`' !in s
  {
    if s == [] then None
    else if s[0] == '`' then Some(0)
    else match NextBacktick(s[1..])
      case Some(j) => Some(j + 1)
      case None => None
  }

  lemma {:induction false} NextBacktickPrefix(a: string, b: string)
    requires NextBacktick(a).Some?
    ensures NextBacktick(a + b) == NextBacktick(a)
  {
    if a[0] != '`' {
      assert (a + b)[1..] == a[1..] + b;
      NextBacktickPrefix(a[1..], b);
    }
  }

  /**
    The inline-code replacement: a backtick followed by one or more
    non-backticks and a closing backtick becomes a `<code>` element; any
    other backtick stays as it is.
   */
  function InlineCode(s: string): string
    decreases |s|
  {
    if s == [] then []
    else if s[0] != '`' then [s[0]] + InlineCode(s[1..])
    else match NextBacktick(s[1..])
      case Some(r) =>
        if r > 0 then "<code>" + s[1..r + 1] + "</code>" + InlineCode(s[r + 2..])
        else "`" + InlineCode(s[1..])
      case None => "`" + InlineCode(s[1..])
  }

  /** Every backtick the inline scan tries as an opener finds its closer within `s`. */
  predicate InlineClosed(s: string)
    decreases |s|
  {
    if s == [] then true
    else if s[0] != '`' then InlineClosed(s[1..])
    else match NextBacktick(s[1..])
      case Some(r) => if r > 0 then InlineClosed(s[r + 2..]) else InlineClosed(s[1..])
      case None => false
  }

  /** Step 3 on the text of step 2. */
  function FormatInline(s: string): string {
    ReplaceAll(InlineCode(s), '\n', "<br>")
  }

  /** A text whose inline spans are all closed is formatted on its own. */
  lemma {:induction false} InlineConcat(a: string, b: string)
    requires InlineClosed(a)
    ensures InlineCode(a + b) == InlineCode(a) + InlineCode(b)
    decreases |a|
  {
    if a == [] {
      assert a + b == b;
    } else {
      var ab := a + b;
      assert ab[0] == a[0];
      assert ab[1..] == a[1..] + b;
      if a[0] != '`' {
        InlineConcat(a[1..], b);
      } else {
        var r := NextBacktick(a[1..]).value;
        NextBacktickPrefix(a[1..], b);
        if r > 0 {
          assert ab[1..r + 1] == a[1..r + 1];
          assert ab[r + 2..] == a[r + 2..] + b;
          InlineConcat(a[r + 2..], b);
        } else {
          InlineConcat(a[1..], b);
        }
      }
    }
  }

  /** Text without a backtick is left alone by the inline scan. */
  lemma {:induction false} InlinePlain(u: string)
    requires '`' !in u
    ensures InlineCode(u) == u && InlineClosed(u)
  {
    if u != [] {
      assert u[0] != '`';
      InlinePlain(u[1..]);
    }
  }

  /** A closed span with a nonempty, backtick-free content becomes a `<code>` element. */
  lemma InlineSpan(x: string, rest: string)
    requires x != [] && '`' !in x
    ensures InlineCode("`" + x + "`" + rest) == "<code>" + x + "</code>" + InlineCode(rest)
  {
    var s := "`" + x + "`" + rest;
    assert s[1..] == (x + "`") + rest;
    var t := x + "`";
    assert t[|x|] == '`';
    NextBacktickPrefix(t, rest);
    assert NextBacktick(t) == Some(|x|);
    assert s[1..|x| + 1] == x;
    assert s[|x| + 2..] == rest;
  }

  /** A backtick without a closing partner stays literal, and so does the text after it. */
  lemma InlineUnclosed(u: string)
    requires '`' !in u
    ensures InlineCode("`" + u) == "`" + u
  {
    var s := "`" + u;
    assert s[1..] == u;
    InlinePlain(u);
  }

  /** Two adjacent backticks enclose no content: the first stays literal. */
  lemma InlineEmptySpan(rest: string)
    ensures InlineCode("``" + rest) == "`" + InlineCode("`" + rest)
  {
    var s := "``" + rest;
    assert s[1..] == "`" + rest;
  }

  lemma FormatInlineConcat(a: string, b: string)
    requires InlineClosed(a)
    ensures FormatInline(a + b) == FormatInline(a) + FormatInline(b)
  {
    InlineConcat(a, b);
    ReplaceAllConcat(InlineCode(a), InlineCode(b), '\n', "<br>");
  }

  lemma FormatInlinePlain(u: string)
    requires '`' !in u && '\n' !in u
    ensures FormatInline(u) == u && InlineClosed(u)
  {
    InlinePlain(u);
    ReplaceAllAbsent(u, '\n', "<br>");
  }

  lemma {:induction false} InlineCodeChars(s: string, c: char)
    requires c !in s && c != '`' && c !in "<code></code>"
    ensures c !in InlineCode(s)
    decreases |s|
  {
    if s != [] {
      if s[0] != '`' {
        InlineCodeChars(s[1..], c);
      } else {
        match NextBacktick(s[1..])
        case Some(r) =>
          if r > 0 {
            assert forall j :: 1 <= j < r + 1 ==> s[j] != c;
            InlineCodeChars(s[r + 2..], c);
          } else {
            InlineCodeChars(s[1..], c);
          }
        case None => InlineCodeChars(s[1..], c);
      }
    }
  }

  lemma {:induction false} ReplaceAllChars(s: string, c: char, r: string, d: char)
    requires d !in s && d !in r
    ensures d !in ReplaceAll(s, c, r)
  {
    if s != [] {
      ReplaceAllChars(s[1..], c, r, d);
    }
  }

  /** Step 3 introduces no underscore. */
  lemma FormatInlineNoUnderscore(s: string)
    requires '_' !in s
    ensures '_' !in FormatInline(s)
  {
    InlineCodeChars(s, '_');
    ReplaceAllChars(InlineCode(s), '\n', "<br>", '_');
  }

  function MapFormatInline(xs: seq<string>): (r: seq<string>)
    ensures |r| == |xs|
  {
    if xs == [] then [] else [FormatInline(xs[0])] + MapFormatInline(xs[1..])
  }

  lemma PlaceholderPlain(i: nat)
    ensures '`' !in Placeholder(i) && '\n' !in Placeholder(i)
    ensures '&' !in Placeholder(i) && '<' !in Placeholder(i) && '>' !in Placeholder(i)
  {
    assert forall j :: 0 <= j < |NatToString(i)| ==> IsDigit(NatToString(i)[j]);
  }

  /**
    Step 3 leaves every placeholder intact when every text piece before a
    placeholder closes its own inline spans.
   */
  lemma {:induction false} FormatInlineInterleave(xs: seq<string>, k: nat)
    requires |xs| >= 1
    requires forall i :: 0 <= i < |xs| - 1 ==> InlineClosed(xs[i])
    ensures FormatInline(Interleave(xs, Placeholders(k, |xs| - 1)))
         == Interleave(MapFormatInline(xs), Placeholders(k, |xs| - 1))
    decreases |xs|
  {
    if |xs| > 1 {
      var ps := Placeholders(k, |xs| - 1);
      var u := Placeholder(k);
      var rest := Interleave(xs[1..], ps[1..]);
      assert ps[1..] == Placeholders(k + 1, |xs| - 2);
      FormatInlineInterleave(xs[1..], k + 1);
      PlaceholderPlain(k);
      FormatInlinePlain(u);
      FormatInlineConcat(xs[0], u + rest);
      FormatInlineConcat(u, rest);
      assert xs[0] + ps[0] + rest == xs[0] + (u + rest);
      assert MapFormatInline(xs)[1..] == MapFormatInline(xs[1..]);
    }
  }

  // ---------------------------------------------------------------------
  // Step 4: /___CODE_BLOCK_(\d+)___/g -> the block's wrapper markup
  // ---------------------------------------------------------------------

  /** The length of the longest prefix of digits (`\d+`, greedy). */
  function DigitRun(s: string): (n: nat)
    ensures n <= |s| && AllDigits(s[..n])
    ensures n < |s| ==> !IsDigit(s[n])
  {
    if s != [] && IsDigit(s[0]) then
      var n := 1 + DigitRun(s[1..]);
      assert forall i :: 1 <= i < n ==> s[..n][i] == s[1..][..n - 1][i - 1];
      n
    else 0
  }

  /** A match of the token expression: the captured digits and the match length. */
  datatype Token = Token(digits: string, len: nat)

  /**
    The token expression anchored at the start of `s`. Backtracking to a
    shorter digit run cannot help: the suffix begins with an underscore.
   */
  function TokenAt(s: string): (t: Option<Token>)
    ensures t.Some? ==> t.value.len <= |s| && AllDigits(t.value.digits) && |t.value.digits| > 0
    ensures t.Some? ==> s[..t.value.len] == TokenPrefix + t.value.digits + TokenSuffix
  {
    if StartsWith(s, TokenPrefix) then
      var d := DigitRun(s[14..]);
      if d > 0 && StartsWith(s[14 + d..], TokenSuffix) then
        assert s[..14 + d + 3] == s[..14] + s[14..][..d] + s[14 + d..][..3];
        Some(Token(s[14..14 + d], 14 + d + 3))
      else None
    else None
  }

  /**
    `codeBlocks[index]` where `index` is the captured digit STRING: it
    names an element only in canonical form ("0", "12"; not "012") and
    below the number of blocks; otherwise the lookup gives `undefined`.
   */
  function LookupBlock(blocks: seq<Block>, digits: string): (r: Option<Block>)
    requires AllDigits(digits)
    ensures r.Some? <==> Canonical(digits) && ParseDigits(digits) < |blocks|
    ensures r.Some? ==> r.value == blocks[ParseDigits(digits)]
  {
    if Canonical(digits) && ParseDigits(digits) < |blocks| then Some(blocks[ParseDigits(digits)]) else None
  }

  /**
    The lookup follows JavaScript's array-index rule: the key names an
    element exactly when it is `String(i)` for an index `i` in range, and
    then it names element `i`.
   */
  lemma LookupBlockIndex(blocks: seq<Block>, digits: string)
    requires AllDigits(digits)
    ensures LookupBlock(blocks, digits).Some? <==> exists i :: 0 <= i < |blocks| && digits == NatToString(i)
    ensures forall i :: 0 <= i < |blocks| && digits == NatToString(i) ==> LookupBlock(blocks, digits) == Some(blocks[i])
  {
    if Canonical(digits) && ParseDigits(digits) < |blocks| {
      CanonicalIsString(digits);
      var i := ParseDigits(digits);
      assert 0 <= i < |blocks| && digits == NatToString(i);
    }
    forall i | 0 <= i < |blocks| && digits == NatToString(i)
      ensures LookupBlock(blocks, digits) == Some(blocks[i])
    {
      LookupPlaceholder(blocks, i);
    }
  }

  /** The label of a block: its tag, or `text` when the tag is empty. */
  function Label(b: Block): (l: string)
    ensures l == "text" || l == b.lang
    ensures l == b.lang <==> b.lang != []
  {
    if b.lang == "" then "text" else b.lang
  }

  const WrapperOpen: string := "<div class=\"code-block-wrapper\"><div class=\"code-block-header\"><span class=\"code-lang\">"
  const WrapperHeaderClose: string := "</span><button class=\"copy-code-btn\" onclick=\"copyCode(this)\">Copy</button></div><pre><code class=\"language-"
  const WrapperBodyOpen: string := "\">"
  const WrapperClose: string := "</code></pre></div>"

  /** The markup that replaces a token: header with the label, then the body as captured. */
  function Wrap(b: Block): string {
    WrapperOpen + Label(b) + WrapperHeaderClose + Label(b) + WrapperBodyOpen + b.code + WrapperClose
  }

  /** `block.lang` on `undefined` throws: the token names no block. */
  datatype RenderError = UndefinedBlock(index: string)

  function Prepend(p: string, r: Result<string, RenderError>): Result<string, RenderError> {
    match r
    case Ok(v) => Ok(p + v)
    case Err(e) => Err(e)
  }

  /**
    Step 4: every token is replaced by the wrapper of the block it names,
    left to right; the first token that names no block aborts the whole
    rendering.
   */
  function Restore(s: string, blocks: seq<Block>): Result<string, RenderError>
    decreases |s|
  {
    if s == [] then Ok([])
    else match TokenAt(s)
      case Some(t) =>
        (match LookupBlock(blocks, t.digits)
         case None => Err(UndefinedBlock(t.digits))
         case Some(b) => Prepend(Wrap(b), Restore(s[t.len..], blocks)))
      case None => Prepend([s[0]], Restore(s[1..], blocks))
  }

  /** The whole formatting pipeline of one message's content. */
  function Format(content: string): Result<string, RenderError> {
    var f := Extract(Escape(content));
    Restore(FormatInline(Placeheld(f)), f.blocks)
  }

  lemma PrependPrepend(a: string, b: string, r: Result<string, RenderError>)
    ensures Prepend(a, Prepend(b, r)) == Prepend(a + b, r)
  {
    if r.Ok? {
      assert a + (b + r.value) == (a + b) + r.value;
    }
  }

  lemma {:induction false} DigitRunDigits(a: string, b: string)
    requires AllDigits(a) && (b != [] ==> !IsDigit(b[0]))
    ensures DigitRun(a + b) == |a|
  {
    if a == [] {
      assert a + b == b;
    } else {
      assert (a + b)[1..] == a[1..] + b;
      DigitRunDigits(a[1..], b);
    }
  }

  /**
    Every token of the expression's shape is recognised, whatever its
    digits (a leading zero included) and whatever follows it.
   */
  lemma TokenAtDigits(ds: string, z: string)
    requires AllDigits(ds) && ds != []
    ensures TokenAt(TokenPrefix + ds + TokenSuffix + z) == Some(Token(ds, 17 + |ds|))
  {
    var s := TokenPrefix + ds + TokenSuffix + z;
    assert s[..14] == TokenPrefix;
    assert s[14..] == ds + (TokenSuffix + z);
    DigitRunDigits(ds, TokenSuffix + z);
    assert s[14 + |ds|..] == TokenSuffix + z;
    assert s[14..14 + |ds|] == ds;
  }

  /** A placeholder is read back as a token carrying its own number, whatever follows it. */
  lemma TokenAtPlaceholder(i: nat, z: string)
    ensures TokenAt(Placeholder(i) + z) == Some(Token(NatToString(i), |Placeholder(i)|))
  {
    TokenAtDigits(NatToString(i), z);
  }

  /** The lookup of a placeholder's number finds the block it was made for. */
  lemma LookupPlaceholder(blocks: seq<Block>, i: nat)
    requires i < |blocks|
    ensures LookupBlock(blocks, NatToString(i)) == Some(blocks[i])
  {
    ParseNatToString(i);
  }

  /** Text without an underscore holds no token and is copied as it is. */
  lemma {:induction false} RestorePlainPrefix(x: string, z: string, blocks: seq<Block>)
    requires '_' !in x
    ensures Restore(x + z, blocks) == Prepend(x, Restore(z, blocks))
  {
    if x == [] {
      assert x + z == z;
      assert Prepend(x, Restore(z, blocks)) == Restore(z, blocks) by {
        if Restore(z, blocks).Ok? { assert x + Restore(z, blocks).value == Restore(z, blocks).value; }
      }
    } else {
      var s := x + z;
      assert s[0] == x[0] && s[0] != '_';
      assert !StartsWith(s, TokenPrefix) by {
        assert TokenPrefix[0] == '_';
        if |s| >= 14 { assert s[..14][0] == s[0]; }
      }
      assert s[1..] == x[1..] + z;
      RestorePlainPrefix(x[1..], z, blocks);
      PrependPrepend([x[0]], x[1..], Restore(z, blocks));
      assert [x[0]] + x[1..] == x;
    }
  }

  lemma RestorePlaceholder(i: nat, z: string, blocks: seq<Block>)
    requires i < |blocks|
    ensures Restore(Placeholder(i) + z, blocks) == Prepend(Wrap(blocks[i]), Restore(z, blocks))
  {
    var s := Placeholder(i) + z;
    TokenAtPlaceholder(i, z);
    LookupPlaceholder(blocks, i);
    assert s[|Placeholder(i)|..] == z;
  }

  function WrapsFrom(blocks: seq<Block>, k: nat, n: nat): (r: seq<string>)
    requires k + n <= |blocks|
    ensures |r| == n
    decreases n
  {
    if n == 0 then [] else [Wrap(blocks[k])] + WrapsFrom(blocks, k + 1, n - 1)
  }

  /** The wrapper markup of every block, in order. */
  function BlockWrappers(blocks: seq<Block>): (r: seq<string>)
    ensures |r| == |blocks|
  {
    WrapsFrom(blocks, 0, |blocks|)
  }

  /**
    Step 4 replaces exactly the placeholders, each by its own block's
    wrapper, when the text between them holds no underscore.
   */
  lemma {:induction false} RestoreInterleave(xs: seq<string>, k: nat, blocks: seq<Block>)
    requires |xs| >= 1 && k + |xs| - 1 <= |blocks|
    requires forall i :: 0 <= i < |xs| ==> '_' !in xs[i]
    ensures Restore(Interleave(xs, Placeholders(k, |xs| - 1)), blocks)
         == Ok(Interleave(xs, WrapsFrom(blocks, k, |xs| - 1)))
    decreases |xs|
  {
    if |xs| == 1 {
      RestorePlainPrefix(xs[0], [], blocks);
      assert xs[0] + [] == xs[0];
    } else {
      var n, tail := |xs| - 1, xs[1..];
      assert |tail| - 1 == n - 1;
      var rest := Interleave(tail, Placeholders(k + 1, n - 1));
      var done := Interleave(tail, WrapsFrom(blocks, k + 1, n - 1));
      RestoreInterleave(tail, k + 1, blocks);
      assert '_' !in xs[0];
      RestoreStep(xs[0], k, rest, done, blocks);
      PlaceholdersCons(k, n);
      WrapsFromCons(blocks, k, n);
      InterleaveCons(xs, Placeholders(k, n));
      InterleaveCons(xs, WrapsFrom(blocks, k, n));
    }
  }

  lemma PlaceholdersCons(k: nat, n: nat)
    requires n > 0
    ensures Placeholders(k, n)[0] == Placeholder(k)
    ensures Placeholders(k, n)[1..] == Placeholders(k + 1, n - 1)
  {
  }

  lemma WrapsFromCons(blocks: seq<Block>, k: nat, n: nat)
    requires n > 0 && k + n <= |blocks|
    ensures WrapsFrom(blocks, k, n)[0] == Wrap(blocks[k])
    ensures WrapsFrom(blocks, k, n)[1..] == WrapsFrom(blocks, k + 1, n - 1)
  {
  }

  lemma InterleaveCons(xs: seq<string>, ys: seq<string>)
    requires |xs| == |ys| + 1 && ys != []
    ensures Interleave(xs, ys) == xs[0] + (ys[0] + Interleave(xs[1..], ys[1..]))
  {
  }

  /** One text piece and one placeholder in front of restored text. */
  lemma RestoreStep(x: string, k: nat, rest: string, done: string, blocks: seq<Block>)
    requires '_' !in x && k < |blocks| && Restore(rest, blocks) == Ok(done)
    ensures Restore(x + (Placeholder(k) + rest), blocks) == Ok(x + (Wrap(blocks[k]) + done))
  {
    RestorePlainPrefix(x, Placeholder(k) + rest, blocks);
    RestorePlaceholder(k, rest, blocks);
  }

  lemma {:induction false} MapFormatInlineNoUnderscore(xs: seq<string>)
    requires forall i :: 0 <= i < |xs| ==> '_' !in xs[i]
    ensures forall i :: 0 <= i < |xs| ==> '_' !in MapFormatInline(xs)[i]
  {
    if xs != [] {
      FormatInlineNoUnderscore(xs[0]);
      MapFormatInlineNoUnderscore(xs[1..]);
      assert forall i :: 1 <= i < |xs| ==> MapFormatInline(xs)[i] == MapFormatInline(xs[1..])[i - 1];
    }
  }

  /**
    The condition under which formatting works piece by piece: no text
    piece holds an underscore, and every piece before a block closes its
    own inline spans.
   */
  predicate Separable(f: Fenced) {
    && |f.texts| == |f.blocks| + 1
    && (forall i :: 0 <= i < |f.texts| ==> '_' !in f.texts[i])
    && (forall i :: 0 <= i < |f.blocks| ==> InlineClosed(f.texts[i]))
  }

  /**
    The formatter works piece by piece: under `Separable`, the result is
    each text piece formatted on its own, with each fenced block in its
    place as wrapper markup around its body exactly as captured: no
    `<br>`, no `<code>`, no second escaping inside.
   */
  lemma FormatPiecewise(content: string)
    requires Separable(Extract(Escape(content)))
    ensures var f := Extract(Escape(content));
            Format(content) == Ok(Interleave(MapFormatInline(f.texts), BlockWrappers(f.blocks)))
  {
    var f := Extract(Escape(content));
    FormatInlineInterleave(f.texts, 0);
    MapFormatInlineNoUnderscore(f.texts);
    RestoreInterleave(MapFormatInline(f.texts), 0, f.blocks);
  }

  /** Text without a backtick holds no fence: step 2 leaves it as one text piece. */
  lemma {:induction false} ExtractNoBacktick(s: string)
    requires '`' !in s
    ensures Extract(s) == Fenced([s], [])
  {
    if s != [] {
      NoFenceAtChar(s);
      ExtractCharCase(s);
      ExtractNoBacktick(s[1..]);
      assert [s[0]] + s[1..] == s;
    }
  }

  /**
    A message that itself contains placeholder text for a block it does
    not have (here: nothing but that text) cannot be rendered: the lookup
    in step 4 yields `undefined` and reading its tag throws.
   */
  lemma PlaceholderWithoutBlockThrows(i: nat)
    ensures Format(Placeholder(i)) == Err(UndefinedBlock(NatToString(i)))
  {
    TokenWithoutBlockThrows(NatToString(i));
  }

  /**
    The same for any token typed into a message, whatever its digits
    (`___CODE_BLOCK_007___` included): with no block to name, its lookup
    fails.
   */
  lemma TokenWithoutBlockThrows(ds: string)
    requires AllDigits(ds) && ds != []
    ensures Format(TokenPrefix + ds + TokenSuffix) == Err(UndefinedBlock(ds))
  {
    var p := TokenPrefix + ds + TokenSuffix;
    TokenPlain(ds);
    ReplaceAllAbsent(p, '&', "&amp;");
    ReplaceAllAbsent(p, '<', "&lt;");
    ReplaceAllAbsent(p, '>', "&gt;");
    assert Escape(p) == p;
    ExtractNoBacktick(p);
    FormatInlinePlain(p);
    TokenAtDigits(ds, []);
    assert p + [] == p;
  }

  /**
    Step 4 fails on the first token that names no block, whatever plain
    text comes before it and whatever follows it.
   */
  lemma RestoreOrphanToken(x: string, ds: string, z: string, blocks: seq<Block>)
    requires '_' !in x && AllDigits(ds) && ds != []
    requires LookupBlock(blocks, ds).None?
    ensures Restore(x + TokenPrefix + ds + TokenSuffix + z, blocks) == Err(UndefinedBlock(ds))
  {
    var t := TokenPrefix + ds + TokenSuffix + z;
    assert x + TokenPrefix + ds + TokenSuffix + z == x + t;
    RestorePlainPrefix(x, t, blocks);
    TokenAtDigits(ds, z);
    assert Restore(t, blocks) == Err(UndefinedBlock(ds));
  }

  lemma TokenPlain(ds: string)
    requires AllDigits(ds)
    ensures var p := TokenPrefix + ds + TokenSuffix;
            '`' !in p && '\n' !in p && '&' !in p && '<' !in p && '>' !in p
  {
    assert forall j :: 0 <= j < |ds| ==> IsDigit(ds[j]);
  }

  // ---------------------------------------------------------------------
  // The message element
  // ---------------------------------------------------------------------

  /** The styling role: `assistant` is shown with the `ai` style, any other role as itself. */
  function StyleRole(role: string): (s: string)
    ensures role == "assistant" ==> s == "ai"
    ensures role != "assistant" ==> s == role
  {
    if role == "assistant" then "ai" else role
  }

  /** Two roles share a style exactly when they are equal or are `ai` and `assistant`. */
  lemma StyleRoleCollision(a: string, b: string)
    ensures StyleRole(a) == StyleRole(b) <==>
            a == b || (a == "ai" && b == "assistant") || (a == "assistant" && b == "ai")
  {
  }

  /** The sender line: `You` for the user, `AI` for every other role. */
  function SenderLabel(role: string): (l: string)
    ensures l == "You" || l == "AI"
    ensures l == "You" <==> role == "user"
  {
    if role == "user" then "You" else "AI"
  }

  /** What the element of one message shows. */
  datatype MessageView = MessageView(className: string, sender: string, body: string)

  /** The element built for one message, or the error its content raises. */
  function RenderMessage(role: string, content: string): (r: Result<MessageView, RenderError>)
    ensures r.Ok? <==> Format(content).Ok?
    ensures r.Ok? ==> r.value.className == "chat-message " + StyleRole(role)
    ensures r.Ok? ==> r.value.sender == SenderLabel(role) && r.value.body == Format(content).value
    ensures r.Err? ==> r.error == Format(content).error
  {
    match Format(content)
    case Ok(body) => Ok(MessageView("chat-message " + StyleRole(role), SenderLabel(role), body))
    case Err(e) => Err(e)
  }

  /** Content without a backtick, an underscore or a markup character is shown with only its newlines replaced. */
  lemma PlainContent(content: string)
    requires '`' !in content && '_' !in content
    requires '&' !in content && '<' !in content && '>' !in content
    ensures Format(content) == Ok(ReplaceAll(content, '\n', "<br>"))
  {
    ReplaceAllAbsent(content, '&', "&amp;");
    ReplaceAllAbsent(content, '<', "&lt;");
    ReplaceAllAbsent(content, '>', "&gt;");
    assert Escape(content) == content;
    ExtractNoBacktick(content);
    var f := Extract(Escape(content));
    assert Placeheld(f) == content;
    InlinePlain(content);
    var t := FormatInline(content);
    assert t == ReplaceAll(content, '\n', "<br>");
    ReplaceAllChars(content, '\n', "<br>", '_');
    RestorePlainPrefix(t, [], []);
    assert t + [] == t;
  }

  // ---------------------------------------------------------------------
  // Matching a block of a known shape
  // ---------------------------------------------------------------------

  lemma {:induction false} WordRunExact(a: string, b: string)
    requires AllWord(a) && (b != [] ==> !IsWordChar(b[0]))
    ensures WordRun(a + b) == |a|
  {
    if a == [] {
      assert a + b == b;
    } else {
      assert (a + b)[0] == a[0];
      assert (a + b)[1..] == a[1..] + b;
      WordRunExact(a[1..], b);
    }
  }

  /**
    The converse of `FenceAtSound`: whenever `s` starts with a fenced block
    of the expression's shape, that block is the match found at the start.
   */
  lemma FenceAtShape(lang: string, code: string, rest: string)
    requires BlockShape(Block(lang, code))
    ensures FenceAt(Fence + lang + code + Fence + rest)
         == Some(FenceMatch(Block(lang, code), 6 + |lang| + |code|))
  {
    var s := Fence + lang + code + Fence + rest;
    ShapeTag(lang, code, rest);
    FindFenceExact(code, rest);
    ShapeSlices(lang, code, rest);
    FenceAtParts(s, |lang|, |code|);
  }

  lemma ShapeTag(lang: string, code: string, rest: string)
    requires BlockShape(Block(lang, code))
    ensures var s := Fence + lang + code + Fence + rest;
            FenceStart(s) && WordRun(s[3..]) == |lang| && s[3 + |lang|..] == code + Fence + rest
  {
    var s := Fence + lang + code + Fence + rest;
    var t := code + Fence + rest;
    assert s[3..] == lang + t;
    assert t[0] == if code == [] then '`' else code[0];
    WordRunExact(lang, t);
    assert s[3 + |lang|..] == t;
  }

  lemma ShapeSlices(lang: string, code: string, rest: string)
    ensures var s := Fence + lang + code + Fence + rest;
            s[3..3 + |lang|] == lang && s[3 + |lang|..3 + |lang| + |code|] == code
  {
  }

  /** `FenceAt` once the tag's length and the body's length are known. */
  lemma FenceAtParts(s: string, k: nat, j: nat)
    requires FenceStart(s) && 3 + k <= |s|
    requires WordRun(s[3..]) == k && FindFence(s[3 + k..]) == Some(j)
    ensures FenceAt(s) == Some(FenceMatch(Block(s[3..3 + k], s[3 + k..3 + k + j]), 6 + k + j))
  {
    FenceAtUnfold(s);
  }


  /** The first fence after a body with no fence inside it is the one that follows it. */
  lemma FindFenceExact(code: string, rest: string)
    requires forall j {:trigger FenceStart((code + Fence)[j..])} :: 0 <= j < |code| ==> !FenceStart((code + Fence)[j..])
    ensures FindFence(code + Fence + rest) == Some(|code|)
  {
    var t := code + Fence + rest;
    var n := |code|;
    assert FenceStart(t[n..]) by {
      assert t[n] == '`' && t[n + 1] == '`' && t[n + 2] == '`';
    }
    forall j | 0 <= j < n ensures !FenceStart(t[j..]) {
      var u := (code + Fence)[j..];
      assert !FenceStart(u);
      assert t[j..][0] == u[0] && t[j..][1] == u[1] && t[j..][2] == u[2];
    }
  }

  /** Text without a backtick before `s` only lengthens the first text piece. */
  lemma {:induction false} ExtractPrefix(x: string, s: string)
    requires '`' !in x
    ensures Extract(x + s)
         == Fenced([x + Extract(s).texts[0]] + Extract(s).texts[1..], Extract(s).blocks)
  {
    var e := Extract(s);
    if x == [] {
      assert x + s == s;
      assert x + e.texts[0] == e.texts[0];
      assert [e.texts[0]] + e.texts[1..] == e.texts;
    } else {
      var xs, x' := x + s, x[1..];
      assert xs[1..] == x' + s && xs[0] == x[0];
      NoFenceAtChar(xs);
      ExtractCharCase(xs);
      assert '`' !in x';
      ExtractPrefix(x', s);
      PrefixStep(x, e, Extract(xs), Extract(x' + s));
    }
  }

  lemma NoFenceAtChar(s: string)
    requires s != [] && s[0] != '`'
    ensures FenceAt(s).None?
  {
    FenceAtUnfold(s);
  }

  lemma PrefixStep(x: string, e: Fenced, f: Fenced, r: Fenced)
    requires x != [] && |e.texts| > 0 && |r.texts| > 0
    requires f == Fenced([[x[0]] + r.texts[0]] + r.texts[1..], r.blocks)
    requires r == Fenced([x[1..] + e.texts[0]] + e.texts[1..], e.blocks)
    ensures f == Fenced([x + e.texts[0]] + e.texts[1..], e.blocks)
  {
    assert [x[0]] + (x[1..] + e.texts[0]) == x + e.texts[0];
  }

  predicate NoMarkup(s: string) {
    '&' !in s && '<' !in s && '>' !in s
  }

  lemma EscapeNoMarkup(s: string)
    requires NoMarkup(s)
    ensures Escape(s) == s
  {
    ReplaceAllAbsent(s, '&', "&amp;");
    ReplaceAllAbsent(s, '<', "&lt;");
    ReplaceAllAbsent(s, '>', "&gt;");
  }

  /** The lazy body's condition: no fence starts in the body before the closing fence. */
  predicate FenceFree(code: string) {
    forall j {:trigger FenceStart((code + Fence)[j..])} :: 0 <= j < |code| ==> !FenceStart((code + Fence)[j..])
  }

  lemma NoBacktickFenceFree(c: string)
    requires '`' !in c
    ensures FenceFree(c)
  {
    forall j | 0 <= j < |c| ensures !FenceStart((c + Fence)[j..]) {
      assert (c + Fence)[j..][0] == c[j];
    }
  }

  lemma WordNoMarkup(w: string)
    requires AllWord(w)
    ensures NoMarkup(w)
  {
    forall j | 0 <= j < |w| ensures w[j] != '&' && w[j] != '<' && w[j] != '>' {
      assert IsWordChar(w[j]);
    }
  }

  /** Escaping creates no backtick: a run of backticks after escaping was one before. */
  lemma {:induction false} EscapeTicks(s: string, k: nat)
    requires k <= 3
    requires forall i :: 0 <= i < k ==> (EscapeChars(s) + Fence)[i] == '`'
    ensures forall i :: 0 <= i < k ==> (s + Fence)[i] == '`'
  {
    if k > 0 && s != [] {
      var e, r := EscapeChar(s[0]), EscapeChars(s[1..]);
      assert EscapeChars(s) + Fence == e + (r + Fence);
      assert (EscapeChars(s) + Fence)[0] == e[0];
      assert s[0] == '`' && e == [s[0]];
      forall i | 0 <= i < k - 1 ensures (r + Fence)[i] == '`' {
        assert (r + Fence)[i] == (EscapeChars(s) + Fence)[i + 1];
      }
      EscapeTicks(s[1..], k - 1);
      forall i | 0 <= i < k ensures (s + Fence)[i] == '`' {
        if i > 0 {
          assert (s + Fence)[i] == (s[1..] + Fence)[i - 1];
        }
      }
    }
  }

  /** Escaping a body keeps it free of fences, so the lazy body ends where it did. */
  lemma {:induction false} EscapeFenceFree(s: string)
    requires FenceFree(s)
    ensures FenceFree(EscapeChars(s))
  {
    if s != [] {
      var e, r := EscapeChar(s[0]), EscapeChars(s[1..]);
      assert FenceFree(s[1..]) by {
        forall j | 0 <= j < |s| - 1 ensures !FenceStart((s[1..] + Fence)[j..]) {
          assert (s[1..] + Fence)[j..] == (s + Fence)[j + 1..];
        }
      }
      EscapeFenceFree(s[1..]);
      var t := EscapeChars(s) + Fence;
      assert t == e + (r + Fence);
      assert !FenceStart(s + Fence) by {
        assert (s + Fence)[0..] == s + Fence;
      }
      forall j | 0 <= j < |e| + |r| ensures !FenceStart(t[j..]) {
        if j >= |e| {
          assert t[j..] == (r + Fence)[j - |e|..];
        } else if e != [s[0]] {
          assert t[j] == e[j];
        } else if FenceStart(t) {
          EscapeTicks(s, 3);
          assert false;
        }
      }
    }
  }

  /** Escaping the body of a block of the expression's shape keeps that shape. */
  lemma EscapeBlockShape(b: Block)
    requires BlockShape(b)
    ensures BlockShape(Block(b.lang, Escape(b.code)))
  {
    EscapeByChar(b.code);
    assert FenceFree(b.code);
    EscapeFenceFree(b.code);
    if b.code != [] {
      assert EscapeChars(b.code)[0] == EscapeChar(b.code[0])[0];
    }
  }

  /** Escaping a block's source escapes only its body: fences and tag have no markup. */
  lemma EscapeBlockSource(b: Block)
    requires AllWord(b.lang)
    ensures Escape(FenceSource(b)) == FenceSource(Block(b.lang, Escape(b.code)))
  {
    var fl := Fence + b.lang;
    var flc := fl + b.code;
    assert FenceSource(b) == flc + Fence;
    EscapeConcat(flc, Fence);
    EscapeConcat(fl, b.code);
    EscapeConcat(Fence, b.lang);
    WordNoMarkup(b.lang);
    EscapeNoMarkup(Fence);
    EscapeNoMarkup(b.lang);
    assert fl + Escape(b.code) + Fence == FenceSource(Block(b.lang, Escape(b.code)));
  }

  lemma EscapeSource(x: string, b: Block)
    requires NoMarkup(x) && AllWord(b.lang)
    ensures Escape(x + FenceSource(b)) == x + FenceSource(Block(b.lang, Escape(b.code)))
  {
    EscapeConcat(x, FenceSource(b));
    EscapeNoMarkup(x);
    EscapeBlockSource(b);
  }

  lemma TextThenBlockExtract(x: string, b: Block)
    requires '`' !in x && NoMarkup(x)
    requires BlockShape(b)
    ensures Extract(Escape(x + FenceSource(b))) == Fenced([x, ""], [Block(b.lang, Escape(b.code))])
  {
    var eb := Block(b.lang, Escape(b.code));
    var src := FenceSource(eb);
    EscapeSource(x, b);
    EscapeBlockShape(b);
    ExtractOneBlock(eb);
    ExtractPrefix(x, src);
    assert x + "" == x;
  }

  /** The source of one block of the expression's shape is extracted as that block. */
  lemma ExtractOneBlock(b: Block)
    requires BlockShape(b)
    ensures Extract(FenceSource(b)) == Fenced(["", ""], [b])
  {
    var src := FenceSource(b);
    var m := FenceMatch(b, |src|);
    assert FenceAt(src) == Some(m) by {
      FenceAtShape(b.lang, b.code, []);
      assert src + [] == src;
    }
    ExtractBlockCase(src, m);
    assert src[m.len..] == [];
    ExtractEmpty();
  }

  /**
    Plain text followed by one block of the expression's shape: the text
    is formatted, the block becomes its wrapper with the body escaped and
    otherwise as written (no `<code>`, no `<br>`).
   */
  lemma TextThenBlock(x: string, b: Block)
    requires '`' !in x && '_' !in x && NoMarkup(x)
    requires BlockShape(b)
    ensures Format(x + FenceSource(b)) == Ok(FormatInline(x) + Wrap(Block(b.lang, Escape(b.code))))
  {
    var content := x + FenceSource(b);
    var eb := Block(b.lang, Escape(b.code));
    var f := Fenced([x, ""], [eb]);
    TextThenBlockExtract(x, b);
    assert Separable(f) by {
      InlinePlain(x);
    }
    FormatPiecewise(content);
    var ys := MapFormatInline(f.texts);
    var ws := BlockWrappers(f.blocks);
    assert ys == [FormatInline(x), ""] by {
      FormatInlinePlain("");
    }
    assert ws == [Wrap(eb)];
    assert Interleave(ys, ws) == FormatInline(x) + Wrap(eb) by {
      assert Interleave(ys[1..], ws[1..]) == "";
      assert FormatInline(x) + Wrap(eb) + "" == FormatInline(x) + Wrap(eb);
    }
  }

  /**
    A tagged block whose tag is followed by a newline: the tag is taken up
    to the first non-word character, so the newline stays at the start of
    the body, and the body is not touched by the newline rule. The body
    may be any text in which no fence starts before the closing one.
   */
  lemma TagEndsAtNewline(x: string, w: string, c: string)
    requires '`' !in x && '_' !in x && NoMarkup(x)
    requires AllWord(w) && FenceFree(c)
    ensures Format(x + Fence + w + "\n" + c + Fence) == Ok(FormatInline(x) + Wrap(Block(w, "\n" + Escape(c))))
  {
    var b := Block(w, "\n" + c);
    assert x + Fence + w + "\n" + c + Fence == x + FenceSource(b);
    assert BlockShape(b) by {
      forall j | 0 <= j < |b.code| ensures !FenceStart((b.code + Fence)[j..]) {
        if j > 0 {
          assert (b.code + Fence)[j..] == (c + Fence)[j - 1..];
        } else {
          assert (b.code + Fence)[j..][0] == '\n';
        }
      }
    }
    TextThenBlock(x, b);
    EscapeConcat("\n", c);
    EscapeNoMarkup("\n");
  }

  /** The same for a body with no backtick and no markup: it is kept exactly as written. */
  lemma PlainTagEndsAtNewline(x: string, w: string, c: string)
    requires '`' !in x && '_' !in x && NoMarkup(x)
    requires AllWord(w) && '`' !in c && NoMarkup(c)
    ensures Format(x + Fence + w + "\n" + c + Fence) == Ok(FormatInline(x) + Wrap(Block(w, "\n" + c)))
  {
    NoBacktickFenceFree(c);
    TagEndsAtNewline(x, w, c);
    EscapeNoMarkup(c);
  }

  /**
    The message `Use ```js` <newline> `console.log(1)```` becomes the text
    `Use ` and one block tagged `js` whose body keeps the leading newline.
   */
  lemma NewlineAfterTagExample(content: string, b: Block)
    requires content == "Use ```js\nconsole.log(1)```"
    requires b == Block("js", "\nconsole.log(1)")
    ensures Format(content) == Ok("Use " + Wrap(b))
  {
    var x, w, c := "Use ", "js", "console.log(1)";
    assert AllWord(w) by {
      assert IsWordChar(w[0]) && IsWordChar(w[1]);
    }
    PlainTagEndsAtNewline(x, w, c);
    FormatInlinePlain(x);
    ExampleSource();
    assert x + Fence + w + "\n" + c + Fence == content;
    assert Block(w, "\n" + c) == b;
  }

  lemma ExampleSource()
    ensures "Use " + Fence + "js" + "\n" + "console.log(1)" + Fence == "Use ```js\nconsole.log(1)```"
    ensures "\n" + "console.log(1)" == "\nconsole.log(1)"
  {
  }
}
