/**
 * The tweet formatter, `TwitterBot.format_tweet`, as three pure string steps:
 * whitespace collapsing (`' '.join(content.split())`), hashtag spacing
 * (`re.sub(r'(?<!&)#', ' #', content)`) and truncation to the configured
 * tweet length. Lengths count characters (code points), as Python's `len` does.
 */
module Formatter {

  /** The characters that Python's `str.split()` and `str.strip()` treat as whitespace. */
  predicate IsSpace(c: char) {
    || c == ' '
    || '\t' <= c <= '\r'
    || '\U{1C}' <= c <= '\U{1F}'
    || c == '\U{85}' || c == '\U{A0}' || c == '\U{1680}'
    || '\U{2000}' <= c <= '\U{200A}'
    || c == '\U{2028}' || c == '\U{2029}' || c == '\U{202F}' || c == '\U{205F}' || c == '\U{3000}'
  }

  predicate NoSpace(s: string) {
    forall i :: 0 <= i < |s| ==> !IsSpace(s[i])
  }

  predicate AllSpace(s: string) {
    forall i :: 0 <= i < |s| ==> IsSpace(s[i])
  }

  /** The non-whitespace characters of `s`, in their order. */
  function Visible(s: string): string {
    if s == [] then [] else (if IsSpace(s[0]) then [] else [s[0]]) + Visible(s[1..])
  }

  lemma {:induction false} VisibleAppend(a: string, b: string)
    ensures Visible(a + b) == Visible(a) + Visible(b)
  {
    if a == [] {
      assert a + b == b;
    } else {
      assert (a + b)[1..] == a[1..] + b;
      VisibleAppend(a[1..], b);
    }
  }

  lemma {:induction false} VisibleOfSpaces(s: string)
    requires AllSpace(s)
    ensures Visible(s) == []
  {
    if s != [] {
      VisibleOfSpaces(s[1..]);
    }
  }

  lemma {:induction false} VisibleOfWord(s: string)
    requires NoSpace(s)
    ensures Visible(s) == s
  {
    if s != [] {
      VisibleOfWord(s[1..]);
    }
  }

  // ---------------------------------------------------------------------
  // Step one: ' '.join(content.split())
  // ---------------------------------------------------------------------

  /** The end of the whitespace run of `s` that starts at `i`. */
  function SpaceRunFrom(s: string, i: nat): (k: nat)
    requires i <= |s|
    ensures i <= k <= |s|
    ensures forall j :: i <= j < k ==> IsSpace(s[j])
    ensures k < |s| ==> !IsSpace(s[k])
    decreases |s| - i
  {
    if i < |s| && IsSpace(s[i]) then SpaceRunFrom(s, i + 1) else i
  }

  /** The start of the whitespace run of `s` that ends just before `i`. */
  function SpaceRunTo(s: string, i: nat): (k: nat)
    requires i <= |s|
    ensures k <= i
    ensures forall j :: k <= j < i ==> IsSpace(s[j])
    ensures 0 < k ==> !IsSpace(s[k - 1])
  {
    if 0 < i && IsSpace(s[i - 1]) then SpaceRunTo(s, i - 1) else i
  }

  /** `s` without its leading whitespace. */
  function DropLeading(s: string): (r: string)
    ensures |r| <= |s| && r == s[|s| - |r|..]
    ensures AllSpace(s[..|s| - |r|])
    ensures r != [] ==> !IsSpace(r[0])
  {
    var k := SpaceRunFrom(s, 0);
    assert forall j :: 0 <= j < k ==> s[..k][j] == s[j];
    s[k..]
  }

  lemma DropLeadingNonSpace(s: string)
    requires s == [] || !IsSpace(s[0])
    ensures DropLeading(s) == s
  {
    assert SpaceRunFrom(s, 0) == 0;
  }

  /** `s` without its trailing whitespace. */
  function DropTrailing(s: string): (r: string)
    ensures |r| <= |s| && r == s[..|r|]
    ensures AllSpace(s[|r|..])
    ensures r != [] ==> !IsSpace(r[|r| - 1])
  {
    var k := SpaceRunTo(s, |s|);
    assert forall j :: k <= j < |s| ==> s[k..][j - k] == s[j];
    s[..k]
  }

  lemma AllSpaceCons(c: char, a: string)
    requires IsSpace(c) && AllSpace(a)
    ensures AllSpace([c] + a)
  {
    assert forall i :: 1 <= i < 1 + |a| ==> ([c] + a)[i] == a[i - 1];
  }

  lemma AllSpaceSnoc(a: string, c: char)
    requires AllSpace(a) && IsSpace(c)
    ensures AllSpace(a + [c])
  {
    assert forall i :: 0 <= i < |a| ==> (a + [c])[i] == a[i];
  }

  /** The longest whitespace-free prefix of `s`. */
  function LeadingWord(s: string): (w: string)
    ensures |w| <= |s| && w == s[..|w|] && NoSpace(w)
    ensures |w| < |s| ==> IsSpace(s[|w|])
  {
    if s != [] && !IsSpace(s[0]) then [s[0]] + LeadingWord(s[1..]) else []
  }

  /** `str.split()` with no separator: the maximal whitespace-free runs of `s`. */
  function Words(s: string): (ws: seq<string>)
    ensures forall i :: 0 <= i < |ws| ==> ws[i] != [] && NoSpace(ws[i])
    decreases |s|
  {
    var t := DropLeading(s);
    if t == [] then []
    else
      var w := LeadingWord(t);
      assert !IsSpace(t[0]) && (|w| < |t| ==> IsSpace(t[|w|]));
      assert |w| > 0;
      var rest := Words(t[|w|..]);
      ConsWords(w, rest);
      [w] + rest
  }

  lemma ConsWords(w: string, rest: seq<string>)
    requires w != [] && NoSpace(w)
    requires forall i :: 0 <= i < |rest| ==> rest[i] != [] && NoSpace(rest[i])
    ensures forall i :: 0 <= i < |[w] + rest| ==> ([w] + rest)[i] != [] && NoSpace(([w] + rest)[i])
  {
    forall i | 0 <= i < |[w] + rest|
      ensures ([w] + rest)[i] != [] && NoSpace(([w] + rest)[i])
    {
      if i > 0 {
        assert ([w] + rest)[i] == rest[i - 1];
      }
    }
  }

  /** `' '.join(ws)`. */
  function Join(ws: seq<string>): string {
    if |ws| == 0 then "" else if |ws| == 1 then ws[0] else ws[0] + " " + Join(ws[1..])
  }

  function Concat(ws: seq<string>): string {
    if ws == [] then [] else ws[0] + Concat(ws[1..])
  }

  /** The first formatting step. */
  function Collapse(s: string): string {
    Join(Words(s))
  }

  /**
   * No whitespace but the plain space, no two spaces in a row, and no space
   * at either end.
   */
  predicate Normalized(c: string) {
    && (forall i :: 0 <= i < |c| && IsSpace(c[i]) ==> c[i] == ' ')
    && (forall i :: 0 <= i < |c| - 1 && c[i] == ' ' ==> c[i + 1] != ' ')
    && (c != [] ==> c[0] != ' ' && c[|c| - 1] != ' ')
  }

  lemma {:induction false} WordsVisible(s: string)
    ensures Concat(Words(s)) == Visible(s)
    decreases |s|
  {
    var t := DropLeading(s);
    VisibleDropLeading(s);
    if t != [] {
      var w := LeadingWord(t);
      var rest := Words(t[|w|..]);
      VisibleLeadingWord(t);
      WordsVisible(t[|w|..]);
      WordsStep(s);
      ConcatCons(w, rest);
    }
  }

  /** Leading whitespace contributes no visible characters. */
  lemma VisibleDropLeading(s: string)
    ensures Visible(s) == Visible(DropLeading(s))
  {
    var t := DropLeading(s);
    var k := |s| - |t|;
    assert s == s[..k] + t;
    VisibleAppend(s[..k], t);
    VisibleOfSpaces(s[..k]);
  }

  lemma VisibleLeadingWord(t: string)
    ensures var w := LeadingWord(t); Visible(t) == w + Visible(t[|w|..])
  {
    var w := LeadingWord(t);
    assert t == w + t[|w|..];
    VisibleAppend(w, t[|w|..]);
    VisibleOfWord(w);
  }

  /** One unfolding of `Words`. */
  lemma WordsStep(s: string)
    ensures var t := DropLeading(s);
      Words(s) == if t == [] then [] else [LeadingWord(t)] + Words(t[|LeadingWord(t)|..])
  {
  }

  lemma ConcatCons(w: string, rest: seq<string>)
    ensures Concat([w] + rest) == w + Concat(rest)
  {
    assert ([w] + rest)[1..] == rest;
  }

  lemma {:induction false} JoinNormalized(ws: seq<string>)
    requires forall i :: 0 <= i < |ws| ==> ws[i] != [] && NoSpace(ws[i])
    ensures Normalized(Join(ws))
    ensures Visible(Join(ws)) == Concat(ws)
    ensures ws != [] ==> Join(ws) != [] && Join(ws)[0] == ws[0][0]
  {
    if |ws| == 1 {
      VisibleOfWord(ws[0]);
      assert Concat(ws[1..]) == [];
    } else if |ws| > 1 {
      var w, rest := ws[0], Join(ws[1..]);
      JoinNormalized(ws[1..]);
      assert rest[0] == ws[1][0] && !IsSpace(rest[0]);
      NormalizedJoinStep(w, rest);
      VisibleJoinStep(w, rest);
    }
  }

  lemma NormalizedJoinStep(w: string, rest: string)
    requires w != [] && NoSpace(w)
    requires rest != [] && !IsSpace(rest[0]) && Normalized(rest)
    ensures Normalized(w + " " + rest)
  {
    var c := w + " " + rest;
    forall i | 0 <= i < |c| && IsSpace(c[i])
      ensures c[i] == ' '
    {
      if i > |w| {
        assert c[i] == rest[i - |w| - 1];
      }
    }
    forall i | 0 <= i < |c| - 1 && c[i] == ' '
      ensures c[i + 1] != ' '
    {
      if i > |w| {
        assert c[i] == rest[i - |w| - 1] && c[i + 1] == rest[i - |w|];
      }
    }
    assert c[|c| - 1] == rest[|rest| - 1];
  }

  lemma VisibleJoinStep(w: string, rest: string)
    requires NoSpace(w)
    ensures Visible(w + " " + rest) == w + Visible(rest)
  {
    VisibleAroundSpaces(w, " ", rest);
  }

  /** A word, whitespace and a text: the word's characters, then the text's visible ones. */
  lemma VisibleAroundSpaces(w: string, sp: string, rest: string)
    requires NoSpace(w) && AllSpace(sp)
    ensures Visible(w + sp + rest) == w + Visible(rest)
  {
    VisibleAppend(w + sp, rest);
    VisibleAppend(w, sp);
    VisibleOfWord(w);
    VisibleOfSpaces(sp);
    assert Visible(w + sp) == w + [] == w;
  }

  /**
   * Step one leaves no newline, tab or other whitespace but single inner
   * spaces, and keeps every visible character in order.
   */
  lemma CollapseSpec(s: string)
    ensures Normalized(Collapse(s))
    ensures Visible(Collapse(s)) == Visible(s)
  {
    JoinNormalized(Words(s));
    WordsVisible(s);
  }

  lemma {:induction false} LeadingWordOf(w: string, rest: string)
    requires NoSpace(w)
    requires rest == [] || IsSpace(rest[0])
    ensures LeadingWord(w + rest) == w
  {
    if w != [] {
      assert (w + rest)[0] == w[0] && (w + rest)[1..] == w[1..] + rest;
      LeadingWordOf(w[1..], rest);
    } else {
      assert w + rest == rest;
    }
  }

  /** A whitespace-free word is split off as it is. */
  lemma WordsOfWord(w: string)
    requires w != [] && NoSpace(w)
    ensures Words(w) == [w]
  {
    DropLeadingNonSpace(w);
    LeadingWordOf(w, []);
    assert w + [] == w;
  }

  /** A word followed by one space is split off the text behind it. */
  lemma WordsCons(w: string, c: string)
    requires w != [] && NoSpace(w)
    requires c != [] && !IsSpace(c[0])
    ensures Words(w + " " + c) == [w] + Words(c)
  {
    var s := w + " " + c;
    assert s == w + (" " + c);
    assert s[0] == w[0];
    DropLeadingNonSpace(s);
    LeadingWordOf(w, " " + c);
    assert s[|w|..] == " " + c;
    DropLeadingOneSpace(c);
    DropLeadingNonSpace(c);
    WordsStep(" " + c);
    WordsStep(c);
    assert Words(" " + c) == Words(c);
    WordsStep(s);
  }

  lemma DropLeadingOneSpace(c: string)
    requires c != [] && !IsSpace(c[0])
    ensures DropLeading(" " + c) == c
  {
    var s := " " + c;
    assert s[1] == c[0];
    assert SpaceRunFrom(s, 1) == 1;
    assert SpaceRunFrom(s, 0) == 1;
    assert s[1..] == c;
  }

  lemma {:induction false} NormalizedSuffix(c: string, k: nat)
    requires Normalized(c)
    requires k < |c| && !IsSpace(c[k])
    ensures Normalized(c[k..])
  {
    var d := c[k..];
    forall i | 0 <= i < |d| - 1 && d[i] == ' '
      ensures d[i + 1] != ' '
    {
      assert d[i] == c[k + i] && d[i + 1] == c[k + i + 1];
    }
    assert d[|d| - 1] == c[|c| - 1];
  }

  /** A normalized string is left alone by step one. */
  lemma {:induction false} NormalizedFixed(c: string)
    requires Normalized(c)
    ensures Collapse(c) == c
    decreases |c|
  {
    if c != [] {
      assert !IsSpace(c[0]);
      var w := LeadingWord(c);
      if |w| == |c| {
        assert w == c;
        WordsOfWord(c);
      } else {
        NormalizedSplit(c);
        var c' := c[|w| + 1..];
        NormalizedSuffix(c, |w| + 1);
        NormalizedFixed(c');
        WordsCons(w, c');
        WordsOfNonEmpty(c');
        JoinCons(w, Words(c'));
      }
    }
  }

  /** A normalized string with a space splits at its first space into a word and a normalized rest. */
  lemma NormalizedSplit(c: string)
    requires Normalized(c) && c != [] && |LeadingWord(c)| < |c|
    ensures var k := |LeadingWord(c)|;
      && k + 1 < |c|
      && LeadingWord(c) != []
      && c == LeadingWord(c) + " " + c[k + 1..]
      && !IsSpace(c[k + 1])
  {
    var w := LeadingWord(c);
    var k := |w|;
    assert IsSpace(c[k]);
    assert c[k] == ' ';
    assert k + 1 < |c|;
    assert !IsSpace(c[0]);
    assert c[k + 1] != ' ';
    assert c == c[..k] + [c[k]] + c[k + 1..];
  }

  lemma JoinCons(w: string, ws: seq<string>)
    requires ws != []
    ensures Join([w] + ws) == w + " " + Join(ws)
  {
    assert ([w] + ws)[1..] == ws;
  }

  lemma WordsOfNonEmpty(c: string)
    requires c != [] && !IsSpace(c[0])
    ensures Words(c) != []
  {
    DropLeadingNonSpace(c);
  }

  /** Step one is idempotent. */
  lemma CollapseIdempotent(s: string)
    ensures Collapse(Collapse(s)) == Collapse(s)
  {
    CollapseSpec(s);
    NormalizedFixed(Collapse(s));
  }

  /** Whitespace on its own holds no word. */
  lemma WordsOfSpaces(sp: string)
    requires AllSpace(sp)
    ensures Words(sp) == []
  {
    WordsSpaces(sp, []);
    assert sp + [] == sp;
  }

  /** Whitespace in front of a text adds no word and changes none. */
  lemma WordsSpaces(sp: string, b: string)
    requires AllSpace(sp)
    ensures Words(sp + b) == Words(b)
  {
    SpaceRunPast(sp, b, 0);
    SpaceRunShift(sp, b, 0);
    assert sp + b == sp + b[..SpaceRunFrom(b, 0)] + b[SpaceRunFrom(b, 0)..];
    assert (sp + b)[|sp| + SpaceRunFrom(b, 0)..] == b[SpaceRunFrom(b, 0)..];
    WordsStep(sp + b);
    WordsStep(b);
  }

  lemma {:induction false} SpaceRunPast(sp: string, b: string, i: nat)
    requires AllSpace(sp) && i <= |sp|
    ensures SpaceRunFrom(sp + b, i) == SpaceRunFrom(sp + b, |sp|)
    decreases |sp| - i
  {
    if i < |sp| {
      assert (sp + b)[i] == sp[i];
      SpaceRunPast(sp, b, i + 1);
    }
  }

  lemma {:induction false} SpaceRunShift(a: string, b: string, j: nat)
    requires j <= |b|
    ensures SpaceRunFrom(a + b, |a| + j) == |a| + SpaceRunFrom(b, j)
    decreases |b| - j
  {
    if j < |b| {
      assert (a + b)[|a| + j] == b[j];
      SpaceRunShift(a, b, j + 1);
    }
  }

  /** A word followed by whitespace or by nothing is split off as it is. */
  lemma WordsLead(w: string, t: string)
    requires w != [] && NoSpace(w)
    requires t == [] || IsSpace(t[0])
    ensures Words(w + t) == [w] + Words(t)
  {
    assert (w + t)[0] == w[0];
    DropLeadingNonSpace(w + t);
    LeadingWordOf(w, t);
    assert (w + t)[|w|..] == t;
    WordsStep(w + t);
  }

  /**
   * A run of whitespace always separates words: the words of `a`, then a
   * run `sp`, then `b` are the words of `a` followed by those of `b`.
   * With `WordsOfSpaces` and `WordsOfWord` this pins `Words` down as the
   * maximal whitespace-free runs, in order.
   */
  lemma {:induction false} WordsSplit(a: string, sp: string, b: string)
    requires sp != [] && AllSpace(sp)
    ensures Words(a + sp + b) == Words(a) + Words(b)
    decreases |a|
  {
    if a == [] {
      WordsSplitEmpty(sp, b);
    } else if IsSpace(a[0]) {
      WordsSplit(a[1..], sp, b);
      WordsSplitSpaceCase(a, sp, b);
    } else {
      WordsSplit(a[|LeadingWord(a)|..], sp, b);
      WordsSplitWordCase(a, sp, b);
    }
  }

  lemma WordsSplitSpaceCase(a: string, sp: string, b: string)
    requires a != [] && IsSpace(a[0])
    requires Words(a[1..] + sp + b) == Words(a[1..]) + Words(b)
    ensures Words(a + sp + b) == Words(a) + Words(b)
  {
    WordsSplitSpace(a, sp + b);
    WordsSplitSpace(a, []);
    Rebracket(a[1..], sp, b);
    Rebracket(a, sp, b);
    assert a + [] == a && a[1..] + [] == a[1..];
  }

  lemma WordsSplitWordCase(a: string, sp: string, b: string)
    requires sp != [] && AllSpace(sp)
    requires a != [] && !IsSpace(a[0])
    requires var a' := a[|LeadingWord(a)|..]; Words(a' + sp + b) == Words(a') + Words(b)
    ensures Words(a + sp + b) == Words(a) + Words(b)
  {
    var w := LeadingWord(a);
    var a' := a[|w|..];
    WordsOfLeadThenSpace(a, sp, b);
    WordsOfLead(a);
    ConsAppend(Words(a + sp + b), Words(a), w, Words(a' + sp + b), Words(a'), Words(b));
  }

  lemma ConsAppend<T>(x: seq<T>, z: seq<T>, w: T, y: seq<T>, wa: seq<T>, wb: seq<T>)
    requires x == [w] + y && y == wa + wb && z == [w] + wa
    ensures x == z + wb
  {
  }

  /** Splitting off the leading word of `a` in front of a whitespace run. */
  lemma WordsOfLeadThenSpace(a: string, sp: string, b: string)
    requires sp != [] && AllSpace(sp)
    requires a != [] && !IsSpace(a[0])
    ensures var w := LeadingWord(a);
      Words(a + sp + b) == [w] + Words(a[|w|..] + sp + b)
  {
    var t := sp + b;
    assert t[0] == sp[0];
    WordsSplitWord(a, t);
    Rebracket(a, sp, b);
    Rebracket(a[|LeadingWord(a)|..], sp, b);
  }

  /** Splitting off the leading word of `a`. */
  lemma WordsOfLead(a: string)
    requires a != [] && !IsSpace(a[0])
    ensures var w := LeadingWord(a); Words(a) == [w] + Words(a[|w|..])
  {
    WordsSplitWord(a, []);
    assert a + [] == a && a[|LeadingWord(a)|..] + [] == a[|LeadingWord(a)|..];
  }

  lemma WordsSplitEmpty(sp: string, b: string)
    requires AllSpace(sp)
    ensures Words([] + sp + b) == Words([]) + Words(b)
  {
    assert [] + sp + b == sp + b;
    WordsSpaces(sp, b);
    WordsOfSpaces([]);
  }

  lemma WordsSplitSpace(a: string, t: string)
    requires a != [] && IsSpace(a[0])
    ensures Words(a + t) == Words(a[1..] + t)
  {
    assert a + t == [a[0]] + (a[1..] + t);
    WordsSpaces([a[0]], a[1..] + t);
  }

  lemma WordsSplitWord(a: string, t: string)
    requires a != [] && !IsSpace(a[0])
    requires t == [] || IsSpace(t[0])
    ensures var w := LeadingWord(a);
      Words(a + t) == [w] + Words(a[|w|..] + t)
  {
    LeadingWordSplit(a);
    WordThenSpace(LeadingWord(a), a[|LeadingWord(a)|..], t);
  }

  /** The leading word of a text that opens with a visible character. */
  lemma LeadingWordSplit(a: string)
    requires a != [] && !IsSpace(a[0])
    ensures var w := LeadingWord(a);
      && w != []
      && a == w + a[|w|..]
      && (a[|w|..] == [] || IsSpace(a[|w|..][0]))
  {
    var w := LeadingWord(a);
    assert w == [a[0]] + LeadingWord(a[1..]);
    assert a == a[..|w|] + a[|w|..];
  }

  lemma WordThenSpace(w: string, rest: string, t: string)
    requires w != [] && NoSpace(w)
    requires rest == [] || IsSpace(rest[0])
    requires t == [] || IsSpace(t[0])
    ensures Words(w + rest + t) == [w] + Words(rest + t)
  {
    assert rest + t == [] || IsSpace((rest + t)[0]) by {
      if rest != [] {
        assert (rest + t)[0] == rest[0];
      } else {
        assert rest + t == t;
      }
    }
    Rebracket(w, rest, t);
    WordsLead(w, rest + t);
  }


  /** `' '.join` of two non-empty word lists puts one space between them. */
  lemma {:induction false} JoinAppend(xs: seq<string>, ys: seq<string>)
    requires xs != [] && ys != []
    ensures Join(xs + ys) == Join(xs) + " " + Join(ys)
    decreases |xs|
  {
    if |xs| == 1 {
      JoinCons(xs[0], ys);
      assert xs + ys == [xs[0]] + ys;
    } else {
      assert xs + ys == [xs[0]] + (xs[1..] + ys);
      JoinCons(xs[0], xs[1..] + ys);
      JoinAppend(xs[1..], ys);
      JoinCons(xs[0], xs[1..]);
      assert xs == [xs[0]] + xs[1..];
    }
  }

  /**
   * Step one turns a run of whitespace between two texts that both hold a
   * visible character into exactly one space.
   */
  lemma CollapseSplit(a: string, sp: string, b: string)
    requires sp != [] && AllSpace(sp)
    requires Visible(a) != [] && Visible(b) != []
    ensures Collapse(a + sp + b) == Collapse(a) + " " + Collapse(b)
  {
    WordsSplit(a, sp, b);
    WordsVisible(a);
    WordsVisible(b);
    JoinAppend(Words(a), Words(b));
  }

  // ---------------------------------------------------------------------
  // str.strip(), used on the text-generation answer
  // ---------------------------------------------------------------------

  /** `str.strip()` with no argument. */
  function Strip(s: string): string {
    DropTrailing(DropLeading(s))
  }

  /** `r` sits at position `i` of `s`, with nothing but whitespace around it. */
  predicate StrippedAt(s: string, r: string, i: int) {
    0 <= i <= |s| - |r| && s[i..i + |r|] == r && AllSpace(s[..i]) && AllSpace(s[i + |r|..])
  }

  /** The stripped text is a slice of `s` cut out between two whitespace-only ends. */
  lemma StripSlice(s: string)
    ensures exists i :: StrippedAt(s, Strip(s), i)
  {
    var t := DropLeading(s);
    var r := DropTrailing(t);
    var i := |s| - |t|;
    LeadingSpaces(s, t, i);
    TrailingSpaces(s, t, r, i);
    StripMiddle(s, t, r, i);
    assert r == Strip(s);
    assert StrippedAt(s, r, i);
  }

  lemma StripMiddle(s: string, t: string, r: string, i: nat)
    requires t == DropLeading(s) && r == DropTrailing(t) && i == |s| - |t|
    ensures s[i..i + |r|] == r
  {
    assert t == s[i..];
    SliceOfSlice(s, i, |r|);
  }

  lemma TrailingSpaces(s: string, t: string, r: string, i: nat)
    requires t == DropLeading(s) && r == DropTrailing(t) && i == |s| - |t|
    ensures AllSpace(s[i + |r|..])
  {
    assert AllSpace(t[|r|..]);
    assert t == s[i..];
    SliceOfSlice(s, i, |r|);
  }

  lemma SliceOfSlice(s: string, i: nat, j: nat)
    requires i + j <= |s|
    ensures s[i..][..j] == s[i..i + j] && s[i..][j..] == s[i + j..]
  {
  }

  /**
   * The stripped text has the visible characters of `s`, starts and ends
   * with a visible character, and is empty exactly when `s` is all whitespace.
   */
  lemma StripSpec(s: string)
    ensures var r := Strip(s);
      && Visible(r) == Visible(s)
      && (r != [] ==> !IsSpace(r[0]) && !IsSpace(r[|r| - 1]))
      && (r == [] <==> AllSpace(s))
  {
    var t := DropLeading(s);
    var r := DropTrailing(t);
    var i := |s| - |t|;
    StripVisible(s, t, r, i);
    if r != [] {
      assert r[0] == t[0];
      assert !IsSpace(s[i]);
    } else {
      StripEmpty(s, t);
    }
  }

  lemma VisibleInside(a: string, m: string, b: string)
    requires AllSpace(a) && AllSpace(b)
    ensures Visible(a + m + b) == Visible(m)
  {
    VisibleAppend(a + m, b);
    VisibleAppend(a, m);
    VisibleOfSpaces(a);
    VisibleOfSpaces(b);
  }

  lemma StripVisible(s: string, t: string, r: string, i: nat)
    requires t == DropLeading(s) && r == DropTrailing(t) && i == |s| - |t|
    ensures Visible(r) == Visible(s)
  {
    var a, b := s[..i], t[|r|..];
    LeadingSpaces(s, t, i);
    assert t == s[i..];
    SplitAt(s, i);
    SplitAt(t, |r|);
    Rebracket(a, r, b);
    VisibleInside(a, r, b);
  }

  lemma SplitAt(s: string, i: nat)
    requires i <= |s|
    ensures s == s[..i] + s[i..]
  {
  }

  lemma LeadingSpaces(s: string, t: string, i: nat)
    requires t == DropLeading(s) && i == |s| - |t|
    ensures AllSpace(s[..i])
  {
    assert AllSpace(s[..|s| - |DropLeading(s)|]);
    assert s[..|s| - |DropLeading(s)|] == s[..i];
  }

  lemma Rebracket(a: string, r: string, b: string)
    ensures a + (r + b) == a + r + b
  {
  }

  lemma StripEmpty(s: string, t: string)
    requires t == DropLeading(s) && DropTrailing(t) == []
    ensures AllSpace(s)
  {
    assert t == [];
    assert s[..|s|] == s;
  }

  // ---------------------------------------------------------------------
  // Step two: re.sub(r'(?<!&)#', ' #', content)
  // ---------------------------------------------------------------------

  /** Position `i` of `s` holds a `#` that the lookbehind `(?<!&)` lets through. */
  predicate BareHashAt(s: string, i: int)
    requires 0 <= i < |s|
  {
    s[i] == '#' && (i == 0 || s[i - 1] != '&')
  }

  /** The number of bare `#` at positions `i` and later of `s`. */
  function BareHashesFrom(s: string, i: nat): nat
    decreases |s| - i
  {
    if i >= |s| then 0 else (if BareHashAt(s, i) then 1 else 0) + BareHashesFrom(s, i + 1)
  }

  function BareHashes(s: string): nat {
    BareHashesFrom(s, 0)
  }

  /**
   * The substitution, character by character, on a remainder `s` of the
   * input whose preceding character was `&` exactly when `afterAmp` holds.
   */
  function SpaceHashtagsAfter(afterAmp: bool, s: string): string
    decreases |s|
  {
    if s == [] then []
    else (if s[0] == '#' && !afterAmp then " #" else [s[0]]) + SpaceHashtagsAfter(s[0] == '&', s[1..])
  }

  /** The second formatting step. */
  function SpaceHashtags(s: string): string {
    SpaceHashtagsAfter(false, s)
  }

  /** Deletes every space that directly precedes a `#`: undoes step two. */
  function Unspace(r: string): string {
    if r == [] then []
    else if r[0] == ' ' && |r| > 1 && r[1] == '#' then Unspace(r[1..])
    else [r[0]] + Unspace(r[1..])
  }

  lemma {:induction false} SpaceHashtagsLengthFrom(s: string, i: nat)
    requires i <= |s|
    ensures |SpaceHashtagsAfter(i > 0 && s[i - 1] == '&', s[i..])| == |s| - i + BareHashesFrom(s, i)
    decreases |s| - i
  {
    if i < |s| {
      assert s[i..][0] == s[i] && s[i..][1..] == s[i + 1..];
      SpaceHashtagsLengthFrom(s, i + 1);
    }
  }

  /** Step two grows the text by one character per bare `#`. */
  lemma SpaceHashtagsLength(s: string)
    ensures |SpaceHashtags(s)| == |s| + BareHashes(s)
  {
    SpaceHashtagsLengthFrom(s, 0);
    assert s[0..] == s;
  }

  lemma {:induction false} UnspaceAfter(afterAmp: bool, s: string)
    ensures Unspace(SpaceHashtagsAfter(afterAmp, s)) == s
    decreases |s|
  {
    if s != [] {
      var rest := SpaceHashtagsAfter(s[0] == '&', s[1..]);
      UnspaceAfter(s[0] == '&', s[1..]);
      if s[0] == '#' && !afterAmp {
        var r := " #" + rest;
        assert r[1..] == "#" + rest;
        assert ("#" + rest)[1..] == rest;
      } else {
        var r := [s[0]] + rest;
        assert r[1..] == rest;
        if s[0] == ' ' && |r| > 1 {
          assert rest[0] != '#';
        }
      }
    }
  }

  /** Removing the inserted spaces gives back the input. */
  lemma UnspaceSpaceHashtags(s: string)
    ensures Unspace(SpaceHashtags(s)) == s
  {
    UnspaceAfter(false, s);
  }

  /**
   * Every `#` of `r` follows a space or an `&`, except perhaps a `#` at the
   * very start when `startOk` holds.
   */
  predicate HashesSeparated(r: string, startOk: bool) {
    forall i :: 0 <= i < |r| && r[i] == '#' ==>
      (i == 0 && startOk) || (i > 0 && (r[i - 1] == ' ' || r[i - 1] == '&'))
  }

  lemma {:induction false} HashesPrecededAfter(afterAmp: bool, s: string)
    ensures HashesSeparated(SpaceHashtagsAfter(afterAmp, s), afterAmp)
    decreases |s|
  {
    if s != [] {
      var x := if s[0] == '#' && !afterAmp then " #" else [s[0]];
      var rest := SpaceHashtagsAfter(s[0] == '&', s[1..]);
      HashesPrecededAfter(s[0] == '&', s[1..]);
      var r := x + rest;
      assert SpaceHashtagsAfter(afterAmp, s) == r;
      forall i | 0 <= i < |r| && r[i] == '#'
        ensures (i == 0 && afterAmp) || (i > 0 && (r[i - 1] == ' ' || r[i - 1] == '&'))
      {
        if i < |x| {
          assert r[i] == x[i];
          if s[0] == '#' && !afterAmp {
            assert x == [' ', '#'];
            assert i == 1 && r[0] == ' ';
          } else {
            assert x == [s[0]] && i == 0;
          }
        } else {
          var j := i - |x|;
          assert r[i] == rest[j];
          if j > 0 {
            assert r[i - 1] == rest[j - 1];
          } else {
            assert s[0] == '&';
            assert r[i - 1] == x[0];
          }
        }
      }
    }
  }

  /** After step two every `#` follows either a space or an `&`. */
  lemma HashesPreceded(s: string)
    ensures HashesSeparated(SpaceHashtags(s), false)
  {
    HashesPrecededAfter(false, s);
  }

  // ---------------------------------------------------------------------
  // Step three: truncation
  // ---------------------------------------------------------------------

  function Min(a: int, b: int): int {
    if a <= b then a else b
  }

  function Max(a: int, b: int): int {
    if a <= b then b else a
  }

  /** Python's slice `s[:k]`, where a negative `k` counts from the end. */
  function SliceTo(s: string, k: int): (r: string)
    ensures |r| <= |s| && r == s[..|r|]
    ensures 0 <= k <= |s| ==> |r| == k
    ensures k < 0 ==> |r| == Max(0, |s| + k)
  {
    if k >= 0 then s[..Min(k, |s|)] else s[..Max(0, |s| + k)]
  }

  /**
   * The third formatting step: text longer than `limit` is cut to
   * `limit - 3` characters followed by "...".
   */
  function Truncate(c: string, limit: int): (r: string)
    ensures |c| <= limit ==> r == c
    ensures |c| > limit && limit >= 3 ==> r == c[..limit - 3] + "..." && |r| == limit
    ensures limit >= 3 ==> |r| <= limit
  {
    if |c| > limit then SliceTo(c, limit - 3) + "..." else c
  }

  /** `TwitterBot.format_tweet`. */
  function FormatTweet(content: string, limit: int): string {
    Truncate(SpaceHashtags(Collapse(content)), limit)
  }

  /** With a limit of at least 3 the formatted tweet fits the limit. */
  lemma FormatTweetBounded(content: string, limit: int)
    requires limit >= 3
    ensures |FormatTweet(content, limit)| <= limit
  {
  }

  /**
   * A text that fits after the first two steps is returned untruncated:
   * it is step one's normalized text with one space added before each bare
   * `#`, and the content's visible characters survive in order.
   */
  lemma FormatTweetUntruncated(content: string, limit: int)
    requires |Collapse(content)| + BareHashes(Collapse(content)) <= limit
    ensures var r := FormatTweet(content, limit);
      && r == SpaceHashtags(Collapse(content))
      && Unspace(r) == Collapse(content)
      && Normalized(Unspace(r))
      && Visible(Unspace(r)) == Visible(content)
  {
    SpaceHashtagsLength(Collapse(content));
    UnspaceSpaceHashtags(Collapse(content));
    CollapseSpec(content);
  }

  /**
   * A text that is too long after the first two steps becomes its first
   * `limit - 3` characters followed by "...", exactly `limit` long.
   */
  lemma FormatTweetTruncated(content: string, limit: int)
    requires limit >= 3
    requires |Collapse(content)| + BareHashes(Collapse(content)) > limit
    ensures var spaced := SpaceHashtags(Collapse(content));
      && |spaced| == |Collapse(content)| + BareHashes(Collapse(content))
      && FormatTweet(content, limit) == spaced[..limit - 3] + "..."
      && |FormatTweet(content, limit)| == limit
  {
    SpaceHashtagsLength(Collapse(content));
  }

  /**
   * Below a limit of 3 the bound fails: Python's negative slice `[:-3]`
   * keeps no character of "ab", and "..." alone is longer than the limit 0.
   */
  lemma FormatTweetShortLimit()
    ensures FormatTweet("ab", 0) == "..."
  {
    assert DropLeading("ab") == "ab";
    assert LeadingWord("ab") == "ab";
    assert "ab"[2..] == [];
    assert Words("ab") == ["ab"];
    assert Collapse("ab") == "ab";
    assert SpaceHashtags("ab") == "ab";
  }

  /**
   * The formatter is not idempotent: formatting "a#b" gives "a #b", and
   * formatting that again adds a second space before the `#`.
   */
  lemma FormatTweetNotIdempotent()
    ensures FormatTweet("a#b", 240) == "a #b"
    ensures FormatTweet(FormatTweet("a#b", 240), 240) == "a  #b"
  {
    CollapseOneWord();
    SpaceOneWord();
    CollapseTwoWords();
    SpaceTwoWords();
  }

  lemma CollapseOneWord()
    ensures Collapse("a#b") == "a#b"
  {
    WordsOfWord("a#b");
  }

  lemma SpaceOneWord()
    ensures SpaceHashtags("a#b") == "a #b"
  {
    assert "a#b"[1..] == "#b" && "#b"[1..] == "b" && "b"[1..] == [];
    assert SpaceHashtagsAfter(false, "b") == "b";
    assert SpaceHashtagsAfter(false, "#b") == " #b";
  }

  lemma CollapseTwoWords()
    ensures Collapse("a #b") == "a #b"
  {
    assert "a #b" == "a" + " " + "#b";
    CollapseOfPair("a", "#b");
  }

  /** Two words separated by one space are left alone by step one. */
  lemma CollapseOfPair(w: string, c: string)
    requires w != [] && NoSpace(w) && c != [] && NoSpace(c)
    ensures Collapse(w + " " + c) == w + " " + c
  {
    WordsOfPair(w, c);
    JoinPair(w, c);
  }

  lemma WordsOfPair(w: string, c: string)
    requires w != [] && NoSpace(w) && c != [] && NoSpace(c)
    ensures Words(w + " " + c) == [w, c]
  {
    calc {
      Words(w + " " + c);
      { WordsCons(w, c); }
      [w] + Words(c);
      { WordsOfWord(c); }
      [w] + [c];
      [w, c];
    }
  }

  lemma JoinPair(w: string, c: string)
    ensures Join([w, c]) == w + " " + c
  {
    assert [w, c][1..] == [c];
  }

  lemma SpaceTwoWords()
    ensures SpaceHashtags("a #b") == "a  #b"
  {
    assert "a #b"[1..] == " #b" && " #b"[1..] == "#b" && "#b"[1..] == "b" && "b"[1..] == [];
    assert SpaceHashtagsAfter(false, "b") == "b";
    assert SpaceHashtagsAfter(false, "#b") == " #b";
    assert SpaceHashtagsAfter(false, " #b") == "  #b";
  }
}
