/**
  The tag tokeniser of generate.py: the operator's tags line is split with
  `re.split("\s+", tags)`, i.e. at every maximal run of whitespace. A leading
  run gives a leading empty token, a trailing run a trailing one, and the empty
  line gives the single token "".
 */
module TagSplit {

  /**
    The characters `\s` matches in this model: the six ASCII whitespace
    characters, space and the contiguous block tab, line feed, vertical tab,
    form feed, carriage return (U+0009 to U+000D).
   */
  predicate IsWs(c: char)
  {
    c == ' ' || '\t' <= c <= '\r'
  }

  predicate NoWs(t: string)
  {
    forall i :: 0 <= i < |t| ==> !IsWs(t[i])
  }

  predicate AllWs(t: string)
  {
    forall i :: 0 <= i < |t| ==> IsWs(t[i])
  }

  /** The end of the whitespace-free stretch of `s` that starts at `i`. */
  function WordEnd(s: string, i: nat): (e: nat)
    requires i <= |s|
    ensures i <= e <= |s|
    ensures forall j :: i <= j < e ==> !IsWs(s[j])
    ensures e < |s| ==> IsWs(s[e])
    decreases |s| - i
  {
    if i == |s| || IsWs(s[i]) then i else WordEnd(s, i + 1)
  }

  /**
    The end of the whitespace run of `s` that starts at `i`: where one greedy
    match of `\s+` at `i` stops.
   */
  function RunEnd(s: string, i: nat): (e: nat)
    requires i <= |s|
    ensures i <= e <= |s|
    ensures forall j :: i <= j < e ==> IsWs(s[j])
    ensures e < |s| ==> !IsWs(s[e])
    decreases |s| - i
  {
    if i == |s| || !IsWs(s[i]) then i else RunEnd(s, i + 1)
  }

  /**
    `re.split("\s+", s)`: the pieces of `s` between the maximal whitespace runs.
    The lemmas below show that only the first and the last piece can be empty.
   */
  function SplitWs(s: string): (r: seq<string>)
    ensures |r| >= 1
    decreases |s|
  {
    var k := WordEnd(s, 0);
    if k == |s| then [s]
    else
      var m := RunEnd(s, k);
      [s[..k]] + SplitWs(s[m..])
  }

  /** The whitespace runs that SplitWs cuts out, in order: one fewer than the tokens. */
  function Gaps(s: string): (g: seq<string>)
    ensures |g| == |SplitWs(s)| - 1
    decreases |s|
  {
    var k := WordEnd(s, 0);
    if k == |s| then []
    else
      var m := RunEnd(s, k);
      [s[k..m]] + Gaps(s[m..])
  }

  /** One cut of a line that holds whitespace: the leading word, the run after it, and the rest. */
  lemma SplitWsStep(s: string)
    requires WordEnd(s, 0) < |s|
    ensures var k := WordEnd(s, 0); var m := RunEnd(s, k);
      && k < m <= |s|
      && SplitWs(s) == [s[..k]] + SplitWs(s[m..])
      && Gaps(s) == [s[k..m]] + Gaps(s[m..])
  {
  }

  /** The leading word has no whitespace, the run after it is all whitespace, and the rest starts with a non-space. */
  lemma CutShape(s: string)
    requires WordEnd(s, 0) < |s|
    ensures var k := WordEnd(s, 0); var m := RunEnd(s, k);
      && k < m <= |s|
      && NoWs(s[..k]) && AllWs(s[k..m])
      && (m < |s| ==> !IsWs(s[m]))
  {
  }

  /**
    Every token is free of whitespace, every run is non-empty whitespace, and
    only the first and the last token can be empty; the first is empty only
    when the line starts with whitespace.
   */
  lemma {:induction false} SplitWsPieces(s: string)
    ensures var r, g := SplitWs(s), Gaps(s);
      && (forall i :: 0 <= i < |r| ==> NoWs(r[i]))
      && (forall i :: 0 < i < |r| - 1 ==> r[i] != [])
      && (forall i :: 0 <= i < |g| ==> g[i] != [] && AllWs(g[i]))
      && (|r| > 1 && r[0] == [] ==> s != [] && IsWs(s[0]))
    decreases |s|
  {
    var k := WordEnd(s, 0);
    if k < |s| {
      SplitWsStep(s);
      CutShape(s);
      var rest := s[RunEnd(s, k)..];
      SplitWsPieces(rest);
      var r, r' := SplitWs(s), SplitWs(rest);
      assert r[1..] == r';
      assert Gaps(s)[1..] == Gaps(rest);
      forall i | 0 < i < |r| - 1
        ensures r[i] != []
      {
        assert r[i] == r'[i - 1];
      }
    } else {
      assert s[..k] == s;
    }
  }

  /** Tokens rejoined with the runs between them. */
  function Join(toks: seq<string>, gaps: seq<string>): (line: string)
    requires |toks| == |gaps| + 1
    decreases |gaps|
  {
    if gaps == [] then toks[0] else toks[0] + gaps[0] + Join(toks[1..], gaps[1..])
  }

  /**
    `toks` and `gaps` cut `s` into whitespace-free tokens separated by
    non-empty whitespace runs of which none touches another: only the first
    and the last token may be empty.
   */
  predicate IsWsDecomposition(s: string, toks: seq<string>, gaps: seq<string>)
  {
    && |toks| == |gaps| + 1
    && (forall i :: 0 <= i < |toks| ==> NoWs(toks[i]))
    && (forall i :: 0 < i < |toks| - 1 ==> toks[i] != [])
    && (forall i :: 0 <= i < |gaps| ==> gaps[i] != [] && AllWs(gaps[i]))
    && Join(toks, gaps) == s
  }

  lemma WordEndIs(s: string, i: nat, e: nat)
    requires i <= e <= |s|
    requires forall j :: i <= j < e ==> !IsWs(s[j])
    requires e < |s| ==> IsWs(s[e])
    ensures WordEnd(s, i) == e
  {
  }

  lemma RunEndIs(s: string, i: nat, e: nat)
    requires i <= e <= |s|
    requires forall j :: i <= j < e ==> IsWs(s[j])
    requires e < |s| ==> !IsWs(s[e])
    ensures RunEnd(s, i) == e
  {
  }

  lemma SplitAt3(s: string, k: nat, m: nat)
    requires k <= m <= |s|
    ensures s == s[..k] + s[k..m] + s[m..]
  {
  }

  /** Rejoining the tokens with the runs that separated them gives back the input. */
  lemma {:induction false} SplitWsJoin(s: string)
    ensures Join(SplitWs(s), Gaps(s)) == s
    decreases |s|
  {
    var k := WordEnd(s, 0);
    if k < |s| {
      SplitWsStep(s);
      var m := RunEnd(s, k);
      var rest := s[m..];
      SplitWsJoin(rest);
      SplitAt3(s, k, m);
      var toks, gaps := SplitWs(s), Gaps(s);
      assert toks[1..] == SplitWs(rest) && gaps[1..] == Gaps(rest);
    }
  }

  /** SplitWs and Gaps together are a decomposition of the input. */
  lemma SplitWsDecomposes(s: string)
    ensures IsWsDecomposition(s, SplitWs(s), Gaps(s))
  {
    SplitWsPieces(s);
    SplitWsJoin(s);
  }

  lemma {:induction false} JoinStart(toks: seq<string>, gaps: seq<string>)
    requires |toks| == |gaps| + 1
    ensures Join(toks, gaps)[..|toks[0]|] == toks[0]
  {
  }

  /**
    A join whose first token is whitespace-free, and non-empty when a run
    follows it, does not start with whitespace.
   */
  lemma JoinHead(toks: seq<string>, gaps: seq<string>)
    requires |toks| == |gaps| + 1
    requires NoWs(toks[0])
    requires gaps != [] ==> toks[0] != []
    ensures var j := Join(toks, gaps); j != [] ==> !IsWs(j[0])
  {
    if gaps != [] {
      JoinStart(toks, gaps);
      assert Join(toks, gaps)[0] == toks[0][0];
    }
  }

  /**
    Dropping the first token and run of a decomposition leaves a
    decomposition of the rest of the line, and that rest does not start
    with whitespace.
   */
  lemma DecompositionTail(s: string, toks: seq<string>, gaps: seq<string>) returns (rest: string)
    requires IsWsDecomposition(s, toks, gaps) && gaps != []
    ensures s == toks[0] + gaps[0] + rest
    ensures NoWs(toks[0]) && gaps[0] != [] && AllWs(gaps[0])
    ensures IsWsDecomposition(rest, toks[1..], gaps[1..])
    ensures rest != [] ==> !IsWs(rest[0])
  {
    rest := Join(toks[1..], gaps[1..]);
    assert toks[1..][0] == toks[1];
    JoinHead(toks[1..], gaps[1..]);
    forall i | 0 < i < |toks[1..]| - 1
      ensures toks[1..][i] != []
    {
      assert toks[1..][i] == toks[i + 1];
    }
  }

  /** The three parts of a line written as `t0 + g0 + rest`, recovered as slices. */
  lemma CutSlices(s: string, t0: string, g0: string, rest: string)
    requires s == t0 + g0 + rest
    ensures s[..|t0|] == t0 && s[|t0|..|t0| + |g0|] == g0 && s[|t0| + |g0|..] == rest
  {
  }

  /**
    A line made of a whitespace-free word, a whitespace run and a rest that
    does not start with whitespace is cut by WordEnd and RunEnd exactly there.
   */
  lemma CutAt(s: string, t0: string, g0: string, rest: string)
    requires s == t0 + g0 + rest
    requires NoWs(t0) && g0 != [] && AllWs(g0)
    requires rest != [] ==> !IsWs(rest[0])
    ensures WordEnd(s, 0) == |t0|
    ensures RunEnd(s, |t0|) == |t0| + |g0|
  {
    var k, m := |t0|, |t0| + |g0|;
    forall j | 0 <= j < k
      ensures !IsWs(s[j])
    {
      assert s[j] == t0[j];
    }
    forall j | k <= j < m
      ensures IsWs(s[j])
    {
      assert s[j] == g0[j - k];
    }
    if m < |s| {
      assert s[m] == rest[0];
    }
    assert IsWs(s[k]);
    WordEndIs(s, 0, k);
    RunEndIs(s, k, m);
  }

  lemma HeadTail<T>(x: seq<T>)
    requires x != []
    ensures x == [x[0]] + x[1..]
  {
  }

  /** Such a line splits into that word followed by the split of the rest. */
  lemma CutSplit(s: string, t0: string, g0: string, rest: string)
    requires s == t0 + g0 + rest
    requires NoWs(t0) && g0 != [] && AllWs(g0)
    requires rest != [] ==> !IsWs(rest[0])
    ensures SplitWs(s) == [t0] + SplitWs(rest)
    ensures Gaps(s) == [g0] + Gaps(rest)
  {
    CutAt(s, t0, g0, rest);
    CutSlices(s, t0, g0, rest);
    SplitWsStep(s);
  }

  /**
    The decomposition is unique: any cut of `s` into whitespace-free tokens
    and separating runs is the one SplitWs and Gaps produce.
   */
  lemma {:induction false} SplitWsUnique(s: string, toks: seq<string>, gaps: seq<string>)
    requires IsWsDecomposition(s, toks, gaps)
    ensures toks == SplitWs(s) && gaps == Gaps(s)
    decreases |gaps|
  {
    if gaps == [] {
      WordEndIs(s, 0, |s|);
      assert s[..|s|] == s;
    } else {
      var rest := DecompositionTail(s, toks, gaps);
      CutSplit(s, toks[0], gaps[0], rest);
      SplitWsUnique(rest, toks[1..], gaps[1..]);
      HeadTail(toks);
      HeadTail(gaps);
    }
  }

  /** The first token is empty exactly when the input is empty or starts with whitespace. */
  lemma SplitWsLeading(s: string)
    ensures SplitWs(s)[0] == [] <==> s == [] || IsWs(s[0])
  {
    if s != [] && !IsWs(s[0]) {
      assert WordEnd(s, 0) > 0;
    }
  }

  /** The last token is empty exactly when the input is empty or ends with whitespace. */
  lemma {:induction false} SplitWsTrailing(s: string)
    ensures var r := SplitWs(s); r[|r| - 1] == [] <==> s == [] || IsWs(s[|s| - 1])
    decreases |s|
  {
    var k := WordEnd(s, 0);
    if k < |s| {
      SplitWsStep(s);
      var m := RunEnd(s, k);
      var rest := s[m..];
      SplitWsTrailing(rest);
      if rest != [] {
        assert s[|s| - 1] == rest[|rest| - 1];
      }
    }
  }

  /** Without whitespace at either end, a non-empty line gives no empty tag. */
  lemma NoEmptyTags(s: string)
    requires s != [] && !IsWs(s[0]) && !IsWs(s[|s| - 1])
    ensures forall i :: 0 <= i < |SplitWs(s)| ==> SplitWs(s)[i] != []
  {
    SplitWsLeading(s);
    SplitWsTrailing(s);
  }

  /** Two spaces and a tab separate three tags. */
  lemma {:induction false} SplitWsExample()
    ensures SplitWs("a  b\tc") == ["a", "b", "c"]
  {
    var toks, gaps := ["a", "b", "c"], ["  ", "\t"];
    assert Join(toks, gaps) == "a  b\tc" by {
      assert toks[1..] == ["b", "c"] && gaps[1..] == ["\t"];
      assert toks[1..][1..] == ["c"] && gaps[1..][1..] == [];
    }
    SplitWsUnique("a  b\tc", toks, gaps);
  }

  /** Runs at both ends give empty tags at both ends; the empty line gives one empty tag. */
  lemma {:induction false} SplitWsEdgeExamples()
    ensures SplitWs(" a ") == ["", "a", ""]
    ensures SplitWs("") == [""]
  {
    var toks, gaps := ["", "a", ""], [" ", " "];
    assert Join(toks, gaps) == " a " by {
      assert toks[1..] == ["a", ""] && gaps[1..] == [" "];
      assert toks[1..][1..] == [""] && gaps[1..][1..] == [];
    }
    SplitWsUnique(" a ", toks, gaps);
    SplitWsUnique("", [""], []);
  }
}
