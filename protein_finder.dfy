/**
 * Protein extraction from translated reading frames (find_rf_proteins and the
 * aggregation in all_proteins, sequences.py).
 *
 * The finder is an automaton over amino-acid symbols. Its state is a list of
 * open accumulators, in the order they were started, and the proteins reported
 * so far. A start symbol opens a new, empty accumulator; every symbol other
 * than the stop symbol, the start symbol included, is appended to every open
 * accumulator; a stop symbol reports all open accumulators and closes them.
 * Accumulators still open at the end are dropped.
 */
module ProteinFinder {

  const Start: char := 'M'
  const Stop: char := '_'

  datatype State = State(open: seq<string>, done: seq<string>)

  /** Every accumulator extended by the string t. */
  function ExtendAll(open: seq<string>, t: string): (r: seq<string>)
    ensures |r| == |open|
    ensures forall i | 0 <= i < |open| :: r[i] == open[i] + t
  {
    seq(|open|, i requires 0 <= i < |open| => open[i] + t)
  }

  /** One step of the automaton on the symbol aa. */
  function Step(st: State, aa: char): State {
    if aa == Stop then
      if st.open != [] then State([], st.done + st.open) else st
    else
      var open := if aa == Start then st.open + [""] else st.open;
      State(ExtendAll(open, [aa]), st.done)
  }

  /** The automaton run over aas from st. */
  function Run(st: State, aas: seq<char>): State
    decreases |aas|
  {
    if aas == [] then st else Run(Step(st, aas[0]), aas[1..])
  }

  /** The proteins the finder reports for one frame. */
  function Proteins(aas: seq<char>): seq<string> {
    Run(State([], []), aas).done
  }

  // ---------------------------------------------------------------------------
  // An independent description of the result: split the frame at its stop
  // symbols; each segment that a stop closes contributes, in order, its
  // suffixes that begin with a start symbol.

  /** The suffixes of t that begin with the start symbol, longest first. */
  function StartSuffixes(t: string): (r: seq<string>)
    ensures |r| == multiset(t)[Start]
  {
    if t == [] then []
    else
      assert t == [t[0]] + t[1..];
      (if t[0] == Start then [t] else []) + StartSuffixes(t[1..])
  }

  /** Each start suffix is a non-empty suffix of t beginning with the start symbol. */
  lemma {:induction false} StartSuffixAt(t: string, j: nat)
    requires j < |StartSuffixes(t)|
    ensures var p := StartSuffixes(t)[j]; 0 < |p| <= |t| && p[0] == Start && p == t[|t| - |p|..]
    decreases |t|
  {
    if t[0] == Start && j == 0 {
    } else {
      var k := if t[0] == Start then j - 1 else j;
      StartSuffixAt(t[1..], k);
    }
  }

  /** Start suffixes come longest first. */
  lemma {:induction false} StartSuffixesShrink(t: string, i: nat, j: nat)
    requires i < j < |StartSuffixes(t)|
    ensures |StartSuffixes(t)[j]| < |StartSuffixes(t)[i]|
    decreases |t|
  {
    if t[0] == Start && i == 0 {
      StartSuffixAt(t[1..], j - 1);
    } else {
      var d := if t[0] == Start then 1 else 0;
      StartSuffixesShrink(t[1..], i - d, j - d);
    }
  }

  /** Index of the first stop symbol, or |aas| when there is none. */
  function FirstStop(aas: seq<char>): (i: nat)
    ensures i <= |aas|
    ensures i < |aas| ==> aas[i] == Stop
    ensures Stop !in aas[..i]
  {
    if aas == [] || aas[0] == Stop then 0
    else
      var i := FirstStop(aas[1..]);
      assert aas[..i + 1] == [aas[0]] + aas[1..][..i];
      i + 1
  }

  function Reference(aas: seq<char>): seq<string>
    decreases |aas|
  {
    var i := FirstStop(aas);
    if i == |aas| then [] else StartSuffixes(aas[..i]) + Reference(aas[i + 1..])
  }

  lemma {:induction false} RunAppend(st: State, a: seq<char>, b: seq<char>)
    ensures Run(st, a + b) == Run(Run(st, a), b)
    decreases |a|
  {
    if a == [] {
      assert a + b == b;
    } else {
      assert (a + b)[0] == a[0] && (a + b)[1..] == a[1..] + b;
      assert Run(st, a + b) == Run(Step(st, a[0]), a[1..] + b);
      RunAppend(Step(st, a[0]), a[1..], b);
    }
  }

  lemma ExtendAllConcat(a: seq<string>, b: seq<string>, t: string)
    ensures ExtendAll(a + b, t) == ExtendAll(a, t) + ExtendAll(b, t)
  {
  }

  lemma ExtendAllTwice(open: seq<string>, x: char, rest: string)
    ensures ExtendAll(ExtendAll(open, [x]), rest) == ExtendAll(open, [x] + rest)
  {
    forall i | 0 <= i < |open| ensures open[i] + [x] + rest == open[i] + ([x] + rest) {
    }
  }

  /**
   * Over a segment without stops, the open accumulators grow by the whole segment,
   * the segment's start suffixes are opened after them, and nothing is reported.
   */
  lemma {:induction false} RunStopFree(open: seq<string>, done: seq<string>, t: string)
    requires Stop !in t
    ensures Run(State(open, done), t) == State(ExtendAll(open, t) + StartSuffixes(t), done)
    decreases |t|
  {
    if t == [] {
      forall i | 0 <= i < |open| ensures open[i] + t == open[i] {
      }
    } else {
      var x, rest := t[0], t[1..];
      assert t == [x] + rest;
      var open1 := Step(State(open, done), x).open;
      assert Run(State(open, done), t) == Run(State(open1, done), rest);
      RunStopFree(open1, done, rest);
      GrowBySymbol(open, x, rest);
    }
  }

  lemma ExtendAllNew(open: seq<string>, t: string)
    ensures ExtendAll(open + [""], t) == ExtendAll(open, t) + [t]
  {
    var l, r := ExtendAll(open + [""], t), ExtendAll(open, t) + [t];
    assert l[|open|] == "" + t == t;
    assert forall i | 0 <= i < |open| :: l[i] == r[i];
  }

  /** One non-stop symbol x followed by rest has the effect of the segment [x] + rest. */
  lemma GrowBySymbol(open: seq<string>, x: char, rest: string)
    requires x != Stop
    ensures var open1 := ExtendAll(if x == Start then open + [""] else open, [x]);
      ExtendAll(open1, rest) + StartSuffixes(rest) == ExtendAll(open, [x] + rest) + StartSuffixes([x] + rest)
  {
    var t := [x] + rest;
    assert t[0] == x && t[1..] == rest;
    if x == Start {
      ExtendAllTwice(open + [""], x, rest);
      ExtendAllNew(open, t);
      assert StartSuffixes(t) == [t] + StartSuffixes(rest);
    } else {
      ExtendAllTwice(open, x, rest);
      assert StartSuffixes(t) == StartSuffixes(rest);
    }
  }

  /** A stop-free segment closed by a stop reports the segment's start suffixes. */
  lemma RunThroughStop(done: seq<string>, seg: string, rest: seq<char>)
    requires Stop !in seg
    ensures Run(State([], done), seg + ([Stop] + rest)) == Run(State([], done + StartSuffixes(seg)), rest)
  {
    RunAppend(State([], done), seg, [Stop] + rest);
    RunStopFree([], done, seg);
    assert ExtendAll([], seg) == [];
    var flushed := StartSuffixes(seg);
    assert Run(State([], done), seg) == State(flushed, done);
    assert ([Stop] + rest)[0] == Stop && ([Stop] + rest)[1..] == rest;
    assert Step(State(flushed, done), Stop) == State([], done + flushed);
  }

  /** Run from a state with nothing open: the reported proteins grow by the reference. */
  lemma {:induction false} RunMatchesReference(done: seq<string>, aas: seq<char>)
    ensures Run(State([], done), aas).done == done + Reference(aas)
    decreases |aas|
  {
    var i := FirstStop(aas);
    if i == |aas| {
      ReferenceWithoutStop(aas);
      RunWithoutStop(done, aas);
    } else {
      var seg, rest := aas[..i], aas[i + 1..];
      ReferenceAtStop(aas);
      RunAcrossFirstStop(done, aas);
      RunMatchesReference(done + StartSuffixes(seg), rest);
      ConcatAssoc(done, StartSuffixes(seg), Reference(rest));
    }
  }

  lemma ConcatAssoc(a: seq<string>, b: seq<string>, c: seq<string>)
    ensures a + (b + c) == (a + b) + c
  {
  }

  lemma SplitAt(aas: seq<char>, i: nat)
    requires i < |aas|
    ensures aas == aas[..i] + ([aas[i]] + aas[i + 1..])
  {
  }

  lemma RunAcrossFirstStop(done: seq<string>, aas: seq<char>)
    requires FirstStop(aas) < |aas|
    ensures var i := FirstStop(aas);
      Run(State([], done), aas) == Run(State([], done + StartSuffixes(aas[..i])), aas[i + 1..])
  {
    var i := FirstStop(aas);
    SplitAt(aas, i);
    RunThroughStop(done, aas[..i], aas[i + 1..]);
  }

  lemma RunWithoutStop(done: seq<string>, aas: seq<char>)
    requires FirstStop(aas) == |aas|
    ensures Run(State([], done), aas).done == done
  {
    assert aas[..|aas|] == aas;
    RunStopFree([], done, aas);
  }

  lemma ReferenceWithoutStop(aas: seq<char>)
    requires FirstStop(aas) == |aas|
    ensures Reference(aas) == []
  {
  }

  lemma ReferenceAtStop(aas: seq<char>)
    requires FirstStop(aas) < |aas|
    ensures Reference(aas) == StartSuffixes(aas[..FirstStop(aas)]) + Reference(aas[FirstStop(aas) + 1..])
  {
  }

  /** The automaton reports exactly the reference proteins. */
  lemma ProteinsMatchReference(aas: seq<char>)
    ensures Proteins(aas) == Reference(aas)
  {
    RunMatchesReference([], aas);
  }

  /** Every reported protein starts with the start symbol and holds no stop symbol. */
  lemma {:induction false} ReferenceShape(aas: seq<char>)
    ensures forall p | p in Reference(aas) :: |p| > 0 && p[0] == Start && Stop !in p
    decreases |aas|
  {
    var i := FirstStop(aas);
    if i < |aas| {
      var seg := aas[..i];
      var ss := StartSuffixes(seg);
      forall p | p in ss ensures |p| > 0 && p[0] == Start && Stop !in p {
        var j :| 0 <= j < |ss| && ss[j] == p;
        StartSuffixAt(seg, j);
        assert forall m | 0 <= m < |p| :: p[m] == seg[|seg| - |p| + m];
      }
      ReferenceShape(aas[i + 1..]);
    }
  }

  /** At most one protein is reported per start symbol. */
  lemma {:induction false} ReferenceCount(aas: seq<char>)
    ensures |Reference(aas)| <= multiset(aas)[Start]
    decreases |aas|
  {
    var i := FirstStop(aas);
    if i < |aas| {
      var seg, rest := aas[..i], aas[i + 1..];
      assert aas == seg + [Stop] + rest;
      ReferenceCount(rest);
    }
  }

  lemma ProteinsShapeAndCount(aas: seq<char>)
    ensures forall p | p in Proteins(aas) :: |p| > 0 && p[0] == Start && Stop !in p
    ensures |Proteins(aas)| <= multiset(aas)[Start]
  {
    ProteinsMatchReference(aas);
    ReferenceShape(aas);
    ReferenceCount(aas);
  }

  /** Accumulators still open at the end of the frame are never reported. */
  lemma UnterminatedTailDropped(aas: seq<char>, tail: string)
    requires Stop !in tail
    ensures Proteins(aas + tail) == Proteins(aas)
  {
    var st := Run(State([], []), aas);
    RunAppend(State([], []), aas, tail);
    RunStopFree(st.open, st.done, tail);
  }

  /** A stop symbol with no open accumulator changes nothing. */
  lemma StopWithNothingOpen(done: seq<string>, rest: seq<char>)
    ensures Run(State([], done), [Stop] + rest) == Run(State([], done), rest)
  {
    assert ([Stop] + rest)[1..] == rest;
  }

  /** The symbols after the last stop (all of aas when it has none). */
  function SinceLastStop(aas: seq<char>): (t: string)
    ensures Stop !in t
  {
    if aas == [] then []
    else if aas[|aas| - 1] == Stop then []
    else SinceLastStop(aas[..|aas| - 1]) + [aas[|aas| - 1]]
  }

  lemma RunSnoc(st: State, init: seq<char>, x: char)
    ensures Run(st, init + [x]) == Step(Run(st, init), x)
  {
    RunAppend(st, init, [x]);
    assert [x][1..] == [];
  }

  lemma StepStopFree(t: string, x: char, done: seq<string>)
    requires Stop !in t && x != Stop
    ensures Step(State(StartSuffixes(t), done), x).open == StartSuffixes(t + [x])
  {
    var tx := t + [x];
    assert Stop !in tx by {
      assert forall i | 0 <= i < |tx| :: tx[i] == if i < |t| then t[i] else x;
    }
    RunStopFree([], done, t);
    RunStopFree([], done, tx);
    var e, ex := ExtendAll([], t), ExtendAll([], tx);
    assert e == [] && ex == [];
    assert e + StartSuffixes(t) == StartSuffixes(t);
    assert ex + StartSuffixes(tx) == StartSuffixes(tx);
    RunSnoc(State([], done), t, x);
  }

  /** The accumulators open after any run are the start suffixes of the text since the last stop. */
  lemma {:induction false} OpenAfterRun(aas: seq<char>)
    ensures Run(State([], []), aas).open == StartSuffixes(SinceLastStop(aas))
    decreases |aas|
  {
    if aas != [] {
      var init, x := aas[..|aas| - 1], aas[|aas| - 1];
      assert aas == init + [x];
      OpenAfterRun(init);
      var st := Run(State([], []), init);
      RunSnoc(State([], []), init, x);
      if x != Stop {
        StepStopFree(SinceLastStop(init), x, st.done);
      }
    }
  }

  /**
   * Accumulators in start order: each begins with the start symbol, and each
   * later-started one is a proper suffix of every earlier one.
   */
  predicate Chained(open: seq<string>) {
    && (forall j | 0 <= j < |open| :: |open[j]| > 0 && open[j][0] == Start)
    && (forall j, k | 0 <= j < k < |open| ::
          |open[k]| < |open[j]| && open[k] == open[j][|open[j]| - |open[k]|..])
  }

  lemma StartSuffixesChained(t: string)
    ensures Chained(StartSuffixes(t))
  {
    var o := StartSuffixes(t);
    forall j | 0 <= j < |o| ensures |o[j]| > 0 && o[j][0] == Start {
      StartSuffixAt(t, j);
    }
    forall j, k | 0 <= j < k < |o| ensures |o[k]| < |o[j]| && o[k] == o[j][|o[j]| - |o[k]|..] {
      StartSuffixAt(t, j);
      StartSuffixAt(t, k);
      StartSuffixesShrink(t, j, k);
    }
  }

  /** A stop reports the accumulators open just before it, which are chained, and closes them. */
  lemma FlushAtStop(aas: seq<char>, i: nat)
    requires i < |aas| && aas[i] == Stop
    ensures var before := Run(State([], []), aas[..i]);
      && Run(State([], []), aas[..i + 1]) == State([], before.done + before.open)
      && Chained(before.open)
  {
    var before := Run(State([], []), aas[..i]);
    assert aas[..i + 1] == aas[..i] + [Stop];
    RunSnoc(State([], []), aas[..i], Stop);
    assert before.open == [] ==> before.done + before.open == before.done;
    OpenAfterRun(aas[..i]);
    StartSuffixesChained(SinceLastStop(aas[..i]));
  }

  lemma ExtendOne(a: string, t: string)
    ensures ExtendAll([a], t) == [a + t]
  {
  }

  lemma ExtendTwo(a: string, b: string, t: string)
    ensures ExtendAll([a, b], t) == [a + t, b + t]
  {
  }

  lemma ExampleFirstSteps()
    ensures Step(State([], []), 'M') == State(["M"], [])
    ensures Step(State(["M"], []), 'A') == State(["MA"], [])
    ensures Step(State(["MA"], []), 'A') == State(["MAA"], [])
  {
    ExtendOne("", "M");
    assert [] + [""] == [""] && "" + "M" == "M";
    ExtendOne("M", "A");
    assert "M" + "A" == "MA";
    ExtendOne("MA", "A");
    assert "MA" + "A" == "MAA";
  }

  lemma ExampleLastSteps()
    ensures Step(State(["MAA"], []), 'M') == State(["MAAM", "M"], [])
    ensures Step(State(["MAAM", "M"], []), 'C') == State(["MAAMC", "MC"], [])
    ensures Step(State(["MAAMC", "MC"], []), '_') == State([], ["MAAMC", "MC"])
  {
    ExtendTwo("MAA", "", "M");
    assert ["MAA"] + [""] == ["MAA", ""] && "MAA" + "M" == "MAAM" && "" + "M" == "M";
    ExtendTwo("MAAM", "M", "C");
    assert "MAAM" + "C" == "MAAMC" && "M" + "C" == "MC";
    assert [] + ["MAAMC", "MC"] == ["MAAMC", "MC"];
  }

  /** The worked example: the start symbol is kept, so MAAMC_ reports MAAMC, then MC. */
  lemma NestedStartsExample()
    ensures Proteins("MAAMC_") == ["MAAMC", "MC"]
  {
    ExampleFirstSteps();
    ExampleLastSteps();
    assert "MAAMC_" == ['M'] + "AAMC_" && "AAMC_" == ['A'] + "AMC_" && "AMC_" == ['A'] + "MC_";
    assert "MC_" == ['M'] + "C_" && "C_" == ['C'] + "_" && "_" == ['_'] + [];
    RunByStep(State([], []), 'M', "AAMC_");
    RunByStep(State(["M"], []), 'A', "AMC_");
    RunByStep(State(["MA"], []), 'A', "MC_");
    RunByStep(State(["MAA"], []), 'M', "C_");
    RunByStep(State(["MAAM", "M"], []), 'C', "_");
    RunByStep(State(["MAAMC", "MC"], []), '_', []);
  }

  lemma RunByStep(st: State, x: char, rest: seq<char>)
    ensures Run(st, [x] + rest) == Run(Step(st, x), rest)
  {
    assert ([x] + rest)[0] == x && ([x] + rest)[1..] == rest;
  }

  // ---------------------------------------------------------------------------
  // Aggregation over frames and ordering by length.

  /** The proteins of each frame, concatenated in frame order. */
  function AllFrameProteins(frames: seq<seq<char>>): seq<string>
  {
    if frames == [] then []
    else AllFrameProteins(frames[..|frames| - 1]) + Proteins(frames[|frames| - 1])
  }

  /** Every protein found in any frame starts with the start symbol and holds no stop symbol. */
  lemma {:induction false} AllFrameProteinsShape(frames: seq<seq<char>>)
    ensures forall p | p in AllFrameProteins(frames) :: |p| > 0 && p[0] == Start && Stop !in p
    decreases |frames|
  {
    if frames != [] {
      AllFrameProteinsShape(frames[..|frames| - 1]);
      ProteinsShapeAndCount(frames[|frames| - 1]);
    }
  }

  predicate NonIncreasingLength(xs: seq<string>) {
    forall i, j | 0 <= i < j < |xs| :: |xs[i]| >= |xs[j]|
  }

  /** The elements of xs of length n, in their order in xs. */
  function WithLength(xs: seq<string>, n: nat): seq<string> {
    if xs == [] then []
    else (if |xs[0]| == n then [xs[0]] else []) + WithLength(xs[1..], n)
  }

  /** Inserts p in front of the first element that is not longer than p. */
  function InsertByLength(p: string, sorted: seq<string>): (r: seq<string>)
    ensures multiset(r) == multiset(sorted) + multiset{p}
  {
    if sorted == [] || |sorted[0]| <= |p| then [p] + sorted
    else
      assert sorted == [sorted[0]] + sorted[1..];
      [sorted[0]] + InsertByLength(p, sorted[1..])
  }

  /** Inserting an element no longer than a bound keeps every element within it. */
  lemma InsertBounded(p: string, xs: seq<string>, n: nat)
    requires |p| <= n && forall k | 0 <= k < |xs| :: |xs[k]| <= n
    ensures forall k | 0 <= k < |InsertByLength(p, xs)| :: |InsertByLength(p, xs)[k]| <= n
  {
    var r := InsertByLength(p, xs);
    forall k | 0 <= k < |r| ensures |r[k]| <= n {
      assert r[k] in multiset(r);
      assert r[k] == p || r[k] in multiset(xs);
    }
  }

  lemma {:induction false} InsertKeepsOrder(p: string, sorted: seq<string>)
    requires NonIncreasingLength(sorted)
    ensures NonIncreasingLength(InsertByLength(p, sorted))
    decreases |sorted|
  {
    if sorted != [] && |sorted[0]| > |p| {
      var head, tail := sorted[0], sorted[1..];
      var rest := InsertByLength(p, tail);
      InsertKeepsOrder(p, tail);
      InsertBounded(p, tail, |head|);
      assert InsertByLength(p, sorted) == [head] + rest;
    }
  }

  /** Inserting p puts it first among the elements of its length. */
  lemma {:induction false} InsertStable(p: string, sorted: seq<string>, n: nat)
    ensures WithLength(InsertByLength(p, sorted), n) == (if |p| == n then [p] else []) + WithLength(sorted, n)
    decreases |sorted|
  {
    var r := InsertByLength(p, sorted);
    if sorted == [] || |sorted[0]| <= |p| {
      assert r[0] == p && r[1..] == sorted;
    } else {
      InsertStable(p, sorted[1..], n);
      assert r[0] == sorted[0] && r[1..] == InsertByLength(p, sorted[1..]);
    }
  }

  /** Python's sorted(xs, key=len, reverse=True): by length, longest first, stable. */
  function SortByLengthDesc(xs: seq<string>): (r: seq<string>)
    ensures multiset(r) == multiset(xs)
  {
    if xs == [] then []
    else
      assert xs == [xs[0]] + xs[1..];
      InsertByLength(xs[0], SortByLengthDesc(xs[1..]))
  }

  /** The sorted list has non-increasing lengths. */
  lemma {:induction false} SortOrdersByLength(xs: seq<string>)
    ensures NonIncreasingLength(SortByLengthDesc(xs))
  {
    if xs != [] {
      SortOrdersByLength(xs[1..]);
      InsertKeepsOrder(xs[0], SortByLengthDesc(xs[1..]));
    }
  }

  /** Stability: the elements of each length keep their original relative order. */
  lemma {:induction false} SortIsStable(xs: seq<string>, n: nat)
    ensures WithLength(SortByLengthDesc(xs), n) == WithLength(xs, n)
  {
    if xs != [] {
      SortIsStable(xs[1..], n);
      InsertStable(xs[0], SortByLengthDesc(xs[1..]), n);
    }
  }
}
