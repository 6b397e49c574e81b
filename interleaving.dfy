/**
 * The explicit round-robin interleaver of Program.cs: `ManySearches` (one
 * lane: a resumable search that suspends once per probe, between the
 * prefetch and the read) and `InterleavedEnumerable` (the driver that steps
 * `G` lanes in slot order until all are exhausted).
 *
 * A lane is an object whose `MoveNext` runs exactly the code between two
 * suspension points; its fields are the locals the C# iterator keeps alive
 * across a `yield`.  The shared result list is a `ResultSink` object.
 */
module Interleaving {
  import opened BinarySearch

  /** The append-only result list shared by all lanes. */
  class ResultSink {
    var items: seq<int>

    constructor ()
      ensures items == []
    {
      items := [];
    }

    method Add(x: int)
      modifies this
      ensures items == old(items) + [x]
    {
      items := items + [x];
    }
  }

  /**
   * What a lane appends when it runs the queries `c`, `c + stride`,
   * `c + 2 * stride`, ... to completion, where `answers[q]` is the answer to
   * query `q`.
   */
  function Column(answers: seq<int>, stride: int, c: int): seq<int>
    requires stride >= 1 && c >= 0
    decreases |answers| - c
  {
    if c >= |answers| then [] else [answers[c]] + Column(answers, stride, c + stride)
  }

  /** The columns of the lanes in slots `0 .. k - 1`, one after another. */
  function Columns(answers: seq<int>, stride: int, k: nat): seq<int>
    requires stride >= 1
  {
    if k == 0 then [] else Columns(answers, stride, k - 1) + Column(answers, stride, k - 1)
  }

  /**
   * Prepending a query shifts every column but the first by one slot: the
   * queries of lane `c` in `[a] + answers` are those of lane `c - 1` in
   * `answers`.
   */
  lemma {:induction false} ShiftColumn(answers: seq<int>, a: int, stride: int, c: int)
    requires stride >= 1 && c >= 1
    ensures Column([a] + answers, stride, c) == Column(answers, stride, c - 1)
    decreases |answers| - c
  {
    if c <= |answers| {
      assert ([a] + answers)[c] == answers[c - 1];
      ShiftColumn(answers, a, stride, c + stride);
    }
  }

  /** The first lane takes the new query and then what the last lane had. */
  lemma FirstColumnAfterPrepend(answers: seq<int>, a: int, stride: int)
    requires stride >= 1
    ensures Column([a] + answers, stride, 0) == [a] + Column(answers, stride, stride - 1)
  {
    ShiftColumn(answers, a, stride, stride);
  }

  /** The first `k` lanes after prepending: the new first column, then lanes `0 .. k - 2` as before. */
  lemma {:induction false} ShiftColumns(answers: seq<int>, a: int, stride: int, k: nat)
    requires stride >= 1 && 1 <= k <= stride
    ensures Columns([a] + answers, stride, k) ==
            Column([a] + answers, stride, 0) + Columns(answers, stride, k - 1)
  {
    if k > 1 {
      ShiftColumns(answers, a, stride, k - 1);
      ShiftColumn(answers, a, stride, k - 1);
    }
  }

  lemma {:induction false} ColumnsOfNothing(stride: int, k: nat)
    requires stride >= 1
    ensures Columns([], stride, k) == []
  {
    if k > 0 {
      ColumnsOfNothing(stride, k - 1);
    }
  }

  /**
   * Running every lane to completion, slot after slot, yields every answer
   * once: a permutation of the answers in query order.
   */
  lemma {:induction false} ColumnsArePermutation(answers: seq<int>, stride: int)
    requires stride >= 1
    ensures multiset(Columns(answers, stride, stride)) == multiset(answers)
    decreases |answers|
  {
    if |answers| == 0 {
      ColumnsOfNothing(stride, stride);
    } else {
      var a, rest := answers[0], answers[1..];
      assert answers == [a] + rest;
      ColumnsArePermutation(rest, stride);
      ShiftColumns(rest, a, stride, stride);
      FirstColumnAfterPrepend(rest, a, stride);
      var last, others := Column(rest, stride, stride - 1), Columns(rest, stride, stride - 1);
      assert Columns(rest, stride, stride) == others + last;
      assert Columns(answers, stride, stride) == [a] + last + others;
    }
  }

  /** With a single lane its column is all answers in query order. */
  lemma {:induction false} UnitStrideColumn(answers: seq<int>, c: nat)
    requires c <= |answers|
    ensures Column(answers, 1, c) == answers[c..]
    decreases |answers| - c
  {
    if c < |answers| {
      UnitStrideColumn(answers, c + 1);
    }
  }

  /**
   * When every answer is the same (as on an empty array, where every answer
   * is 0), the order in which the lanes append does not show.
   */
  lemma ColumnsOfUniform(answers: seq<int>, stride: int, x: int)
    requires stride >= 1
    requires forall q :: 0 <= q < |answers| ==> answers[q] == x
    ensures Columns(answers, stride, stride) == answers
  {
    var cols := Columns(answers, stride, stride);
    ColumnsArePermutation(answers, stride);
    assert |cols| == |multiset(cols)| == |multiset(answers)| == |answers|;
    forall k | 0 <= k < |cols|
      ensures cols[k] == answers[k]
    {
      assert cols[k] in multiset(answers);
    }
  }

  /** Where a lane's iterator body stands. */
  datatype Pc =
    | Start      // created, body not yet entered
    | Suspended  // at the `yield` after a prefetch, before reading the probe
    | Finished   // body has run off its end

  /** One `ManySearches` enumerator. */
  class Lane {
    const stride: int
    const keys: seq<int>
    const values: seq<int>
    const sink: ResultSink
    /** The first query index of this lane, i.e. its slot in the driver. */
    ghost const slot: nat

    var cursor: int
    var idx: int
    var val: int
    var low: int
    var size: int
    var probe: int
    var pc: Pc
    /** Comparisons done so far in the current query. */
    ghost var compares: nat

    ghost predicate Valid()
      reads this
    {
      stride >= 1 && 0 <= cursor &&
      (pc == Start ==> cursor == slot) &&
      (pc == Suspended ==>
        0 <= idx < |values| && cursor == idx + stride && val == values[idx] &&
        compares < Steps(|keys|) &&
        0 <= low && 0 <= size && low + size <= |keys| &&
        Steps(size) == Steps(|keys|) - compares &&
        probe == low + size / 2 &&
        SearchFrom(keys, val, low, size) == Answer(keys, val)) &&
      (pc == Finished ==> cursor >= |values|)
    }

    /** `ManySearches(stride, keys, values, sink, first).GetEnumerator()`. */
    constructor (stride: int, keys: seq<int>, values: seq<int>, sink: ResultSink, first: nat)
      requires stride >= 1
      ensures Valid() && pc == Start && cursor == first && slot == first
      ensures this.stride == stride && this.keys == keys && this.values == values && this.sink == sink
    {
      this.stride := stride;
      this.keys := keys;
      this.values := values;
      this.sink := sink;
      slot := first;
      cursor := first;
      idx, val, low, size, probe := 0, 0, 0, 0, 0;
      pc := Start;
      compares := 0;
    }

    /**
     * Resume the lane and run it to its next suspension point (result true)
     * or to the end of its body (result false).  With `S` probes per search,
     * a suspended lane does one comparison; the S-th comparison of a query
     * also appends its answer and starts the lane's next query.  When `S` is
     * 0 there is no suspension point, so the first call runs all of the
     * lane's queries.
     */
    method MoveNext() returns (more: bool)
      requires Valid()
      modifies this, sink
      ensures Valid()
      ensures more <==> pc == Suspended
      ensures old(pc) == Finished ==> pc == Finished && sink.items == old(sink.items)
      ensures old(pc) == Start && Steps(|keys|) == 0 ==>
                pc == Finished && sink.items == old(sink.items) + Column(Expected(keys, values), stride, old(cursor))
      ensures old(pc) == Start && Steps(|keys|) > 0 ==>
                sink.items == old(sink.items) &&
                if old(cursor) < |values| then pc == Suspended && idx == old(cursor) && compares == 0
                else pc == Finished
      ensures old(pc) == Suspended && old(compares) + 1 < Steps(|keys|) ==>
                pc == Suspended && idx == old(idx) && compares == old(compares) + 1 &&
                sink.items == old(sink.items)
      ensures old(pc) == Suspended && old(compares) + 1 == Steps(|keys|) ==>
                sink.items == old(sink.items) + [Answer(keys, values[old(idx)])] &&
                if old(idx) + stride < |values| then pc == Suspended && idx == old(idx) + stride && compares == 0
                else pc == Finished
    {
      if pc == Finished {
        return false;
      }
      if pc == Suspended {
        more := Resume();
        if more {
          return;
        }
      }
      more := RunQueries();
    }

    /**
     * The code after the `yield`: read the prefetched key, narrow the window,
     * and either prefetch the next probe (result true) or finish the query by
     * the fix-up and the append (result false).
     */
    method Resume() returns (more: bool)
      requires Valid() && pc == Suspended
      modifies this, sink
      ensures stride >= 1 && 0 <= cursor == old(cursor) && pc == Suspended
      ensures more <==> old(compares) + 1 < Steps(|keys|)
      ensures more ==> Valid() && idx == old(idx) && compares == old(compares) + 1 &&
                       sink.items == old(sink.items)
      ensures !more ==> sink.items == old(sink.items) + [Answer(keys, values[old(idx)])] &&
                        cursor == old(idx) + stride
    {
      Narrow();
      if size > 1 {
        probe := low + size / 2;
        // prefetch hint for keys[probe], then suspend
        return true;
      }
      Finish();
      return false;
    }

    /**
     * The fix-up after the search loop and the append: step past the last
     * candidate when its key is below `val`, then record `low`.
     */
    method Finish()
      requires 0 <= low && 0 <= size <= 1 && low + size <= |keys|
      modifies this`low, sink
      ensures low == SearchFrom(keys, val, old(low), old(size))
      ensures sink.items == old(sink.items) + [low]
    {
      if size == 1 && keys[low] < val {
        low := low + 1;
      }
      sink.Add(low);
    }

    /** Read the prefetched key and halve the window towards it. */
    method Narrow()
      requires Valid() && pc == Suspended
      modifies this
      ensures cursor == old(cursor) && idx == old(idx) && val == old(val) && pc == old(pc)
      ensures compares == old(compares) + 1
      ensures 0 <= low && 0 <= size && low + size <= |keys|
      ensures SearchFrom(keys, val, low, size) == Answer(keys, val)
      ensures Steps(size) == Steps(|keys|) - compares
    {
      var v := keys[probe];
      if v < val {
        low := probe;
      }
      size := size - size / 2;
      compares := compares + 1;
    }

    /**
     * Take the query at the cursor and either suspend at its first probe
     * (result true) or, with no probe to do, append its answer at once.
     */
    method BeginQuery() returns (suspended: bool)
      requires stride >= 1 && 0 <= cursor < |values|
      modifies this, sink
      ensures cursor == old(cursor) + stride
      ensures suspended <==> Steps(|keys|) > 0
      ensures suspended ==> Valid() && pc == Suspended && idx == old(cursor) && compares == 0 &&
                            sink.items == old(sink.items)
      ensures !suspended ==> sink.items == old(sink.items) + [Answer(keys, values[old(cursor)])]
    {
      idx := cursor;
      cursor := cursor + stride;
      val := values[idx];
      low, size := 0, |keys|;
      compares := 0;
      if size > 1 {
        probe := low + size / 2;
        // prefetch hint for keys[probe], then suspend
        pc := Suspended;
        return true;
      }
      Finish();
      return false;
    }

    /**
     * The outer loop of the iterator body from the current cursor: start the
     * next query of this lane and suspend at its first probe, or, when the
     * array is too short to need a probe, answer it at once and go on.
     */
    method RunQueries() returns (more: bool)
      requires stride >= 1 && 0 <= cursor
      modifies this, sink
      ensures Valid()
      ensures more <==> pc == Suspended
      ensures Steps(|keys|) == 0 ==>
                pc == Finished && sink.items == old(sink.items) + Column(Expected(keys, values), stride, old(cursor))
      ensures Steps(|keys|) > 0 ==>
                sink.items == old(sink.items) &&
                if old(cursor) < |values| then pc == Suspended && idx == old(cursor) && compares == 0
                else pc == Finished
    {
      while cursor < |values|
        invariant stride >= 1 && old(cursor) <= cursor
        invariant Steps(|keys|) > 0 ==> cursor == old(cursor) && sink.items == old(sink.items)
        invariant sink.items + Column(Expected(keys, values), stride, cursor) ==
                  old(sink.items) + Column(Expected(keys, values), stride, old(cursor))
        decreases |values| - cursor
      {
        ghost var c := cursor;
        more := BeginQuery();
        if more {
          return;
        }
        ghost var e := Expected(keys, values);
        assert Column(e, stride, c) == [e[c]] + Column(e, stride, cursor);
      }
      pc := Finished;
      return false;
    }
  }

  /** Number of slots of the driver that still hold an enumerator. */
  function LiveCount(s: seq<Lane?>): nat
  {
    if |s| == 0 then 0 else (if s[0] != null then 1 else 0) + LiveCount(s[1..])
  }

  lemma {:induction false} AllLive(s: seq<Lane?>)
    requires forall j :: 0 <= j < |s| ==> s[j] != null
    ensures LiveCount(s) == |s|
  {
    if |s| > 0 {
      AllLive(s[1..]);
    }
  }

  lemma {:induction false} NoneLive(s: seq<Lane?>)
    requires LiveCount(s) == 0
    ensures forall j :: 0 <= j < |s| ==> s[j] == null
  {
    if |s| > 0 {
      NoneLive(s[1..]);
      forall j | 1 <= j < |s|
        ensures s[j] == null
      {
        assert s[j] == s[1..][j - 1];
      }
    }
  }

  lemma {:induction false} SomeLive(s: seq<Lane?>) returns (j: nat)
    requires LiveCount(s) > 0
    ensures j < |s| && s[j] != null
  {
    if s[0] != null {
      j := 0;
    } else {
      var k := SomeLive(s[1..]);
      j := k + 1;
    }
  }

  /** Nulling out a live slot lowers the count by one. */
  lemma {:induction false} RetireOne(s: seq<Lane?>, i: nat)
    requires i < |s| && s[i] != null
    ensures LiveCount(s[i := null]) == LiveCount(s) - 1
  {
    if i == 0 {
      assert s[i := null][1..] == s[1..];
    } else {
      RetireOne(s[1..], i - 1);
      assert s[i := null][1..] == s[1..][i - 1 := null];
    }
  }

  function Min(a: int, b: int): int { if a < b then a else b }

  /**
   * Where every slot stands between two passes of the driver, with `S` the
   * number of probes per search:
   *   Fresh          no pass yet, every slot holds a lane that has not started;
   *   Probing(b, m)  the lane in slot `j` is suspended in query `b + j` after
   *                  `m` comparisons, and the slot is empty when `b + j` is
   *                  past the last query;
   *   Drained        every slot is empty.
   */
  datatype Stage = Fresh | Probing(base: nat, m: nat) | Drained

  ghost predicate SlotIn(l: Lane?, j: nat, st: Stage, stride: int, keys: seq<int>, values: seq<int>, sink: ResultSink)
    reads l
  {
    (l != null ==>
      l.Valid() && l.slot == j && l.stride == stride && l.keys == keys && l.values == values && l.sink == sink) &&
    match st
    case Fresh => l != null && l.pc == Start
    case Probing(b, m) =>
      (l != null <==> b + j < |values|) &&
      (l != null ==> l.pc == Suspended && l.idx == b + j && l.compares == m)
    case Drained => l == null
  }

  /** The stage after one more pass over all slots. */
  ghost function NextStage(st: Stage, steps: nat, stride: nat): Stage
  {
    match st
    case Fresh => if steps == 0 then Drained else Probing(0, 0)
    case Probing(b, m) => if m + 1 < steps then Probing(b, m + 1) else Probing(b + stride, 0)
    case Drained => Drained
  }

  /** The results in the sink at a stage. */
  ghost function Emitted(st: Stage, keys: seq<int>, values: seq<int>, stride: int): seq<int>
    requires stride >= 1
  {
    match st
    case Fresh => []
    case Probing(b, _) => Expected(keys, values)[..Min(|values|, b)]
    case Drained => Columns(Expected(keys, values), stride, stride)
  }

  /** The results in the sink once the pass that starts at `st` has visited slots `0 .. i - 1`. */
  ghost function EmittedDuring(st: Stage, steps: nat, keys: seq<int>, values: seq<int>, stride: int, i: nat): seq<int>
    requires stride >= 1
  {
    match st
    case Fresh => if steps == 0 then Columns(Expected(keys, values), stride, i) else []
    case Probing(b, m) => Expected(keys, values)[..Min(|values|, if m + 1 < steps then b else b + i)]
    case Drained => Columns(Expected(keys, values), stride, stride)
  }

  /**
   * Once every slot is empty the sink holds every answer: in query order
   * when the lanes suspended at all (`steps > 0`), and otherwise the lanes'
   * columns one after another, which is a permutation of the query order and
   * equal to it with one lane or an empty array.
   */
  lemma DrainedResults(s: seq<Lane?>, st: Stage, steps: nat, keys: seq<int>, values: seq<int>, sink: ResultSink)
    requires |s| >= 1 && steps == Steps(|keys|)
    requires forall j :: 0 <= j < |s| ==> s[j] == null
    requires SlotIn(s[0], 0, st, |s|, keys, values, sink)
    requires st.Probing? ==> steps > 0
    requires st.Drained? ==> steps == 0
    requires sink.items == Emitted(st, keys, values, |s|)
    ensures |sink.items| == |values|
    ensures multiset(sink.items) == multiset(Expected(keys, values))
    ensures |s| == 1 || |keys| != 1 ==> sink.items == Expected(keys, values)
    ensures |keys| == 1 ==> sink.items == Columns(Expected(keys, values), |s|, |s|)
  {
    if st.Probing? {
      assert sink.items == Expected(keys, values);
    } else if st.Drained? {
      DrainedColumns(keys, values, |s|);
    }
  }

  /** What the lanes append when each runs all of its queries in one go. */
  lemma DrainedColumns(keys: seq<int>, values: seq<int>, g: int)
    requires g >= 1
    ensures var cols := Columns(Expected(keys, values), g, g);
            |cols| == |values| && multiset(cols) == multiset(Expected(keys, values)) &&
            (g == 1 || |keys| == 0 ==> cols == Expected(keys, values))
  {
    var e := Expected(keys, values);
    var cols := Columns(e, g, g);
    ColumnsArePermutation(e, g);
    if g == 1 {
      UnitStrideColumn(e, 0);
    }
    if |keys| == 0 {
      ColumnsOfUniform(e, g, 0);
    }
    assert |cols| == |multiset(cols)| == |multiset(e)| == |e|;
  }

  /**
   * One visit of the driver's inner loop: skip an empty slot; otherwise
   * advance its lane by one `MoveNext` and empty the slot when the lane is
   * exhausted.
   */
  method Advance(tasks: array<Lane?>, i: nat, ghost st: Stage, ghost steps: nat,
                 ghost keys: seq<int>, ghost values: seq<int>, sink: ResultSink) returns (retired: bool)
    requires i < tasks.Length
    requires steps == Steps(|keys|)
    requires st.Probing? ==> 0 < steps && st.m < steps
    requires st.Drained? ==> steps == 0
    requires SlotIn(tasks[i], i, st, tasks.Length, keys, values, sink)
    requires sink.items == EmittedDuring(st, steps, keys, values, tasks.Length, i)
    modifies tasks, tasks[i], sink
    ensures retired <==> old(tasks[i]) != null && tasks[i] == null
    ensures tasks[..] == old(tasks[..])[i := tasks[i]]
    ensures tasks[i] != null ==> tasks[i] == old(tasks[i])
    ensures SlotIn(tasks[i], i, NextStage(st, steps, tasks.Length), tasks.Length, keys, values, sink)
    ensures sink.items == EmittedDuring(st, steps, keys, values, tasks.Length, i + 1)
  {
    var lane := tasks[i];
    retired := false;
    if lane == null {
      return;
    }
    var more := lane.MoveNext();
    if !more {
      tasks[i] := null;
      retired := true;
    }
  }

  /**
   * The same step as `Advance`, seen from the whole array: slot `i` moves to
   * the next stage and every other slot keeps its lane and its lane's state.
   * It adds no code of its own; it carries the frame reasoning for `Pass`.
   */
  method Visit(tasks: array<Lane?>, i: nat, ghost lanes: set<Lane>, ghost st: Stage, ghost steps: nat,
               ghost keys: seq<int>, ghost values: seq<int>, sink: ResultSink) returns (retired: bool)
    requires i < tasks.Length
    requires steps == Steps(|keys|)
    requires st.Probing? ==> 0 < steps && st.m < steps
    requires st.Drained? ==> steps == 0
    requires forall j :: 0 <= j < tasks.Length && tasks[j] != null ==> tasks[j] in lanes && tasks[j].slot == j
    requires forall j :: 0 <= j < tasks.Length ==>
               SlotIn(tasks[j], j, if j < i then NextStage(st, steps, tasks.Length) else st,
                      tasks.Length, keys, values, sink)
    requires sink.items == EmittedDuring(st, steps, keys, values, tasks.Length, i)
    modifies tasks, tasks[i], sink
    ensures retired <==> old(tasks[i]) != null && tasks[i] == null
    ensures tasks[..] == old(tasks[..])[i := tasks[i]]
    ensures tasks[i] != null ==> tasks[i] == old(tasks[i])
    ensures forall j :: 0 <= j < tasks.Length && tasks[j] != null ==> tasks[j] in lanes && tasks[j].slot == j
    ensures forall j :: 0 <= j < tasks.Length ==>
              SlotIn(tasks[j], j, if j < i + 1 then NextStage(st, steps, tasks.Length) else st,
                     tasks.Length, keys, values, sink)
    ensures sink.items == EmittedDuring(st, steps, keys, values, tasks.Length, i + 1)
  {
    retired := Advance(tasks, i, st, steps, keys, values, sink);
  }

  /** The results at the start and at the end of a pass. */
  lemma EmittedDuringEnds(st: Stage, steps: nat, keys: seq<int>, values: seq<int>, stride: int)
    requires stride >= 1
    requires st.Probing? ==> 0 < steps && st.m < steps
    requires st.Drained? ==> steps == 0
    ensures EmittedDuring(st, steps, keys, values, stride, 0) == Emitted(st, keys, values, stride)
    ensures EmittedDuring(st, steps, keys, values, stride, stride) ==
            Emitted(NextStage(st, steps, stride), keys, values, stride)
  {
  }

  /**
   * `Enumerable.Range(0, g).Select(i => ManySearches(g, ..., i).GetEnumerator()).ToArray()`:
   * slot `j` holds a fresh, not yet started lane for the queries `j, j + g, ...`.
   */
  method CreateLanes(keys: seq<int>, values: seq<int>, g: nat, sink: ResultSink)
    returns (tasks: array<Lane?>, ghost lanes: set<Lane>)
    requires g >= 1
    ensures fresh(tasks) && fresh(lanes) && tasks.Length == g
    ensures forall j :: 0 <= j < g ==>
              tasks[j] != null && tasks[j] in lanes && SlotIn(tasks[j], j, Fresh, g, keys, values, sink)
  {
    tasks := new Lane?[g];
    lanes := {};
    for k := 0 to g
      invariant fresh(lanes)
      invariant forall j :: 0 <= j < k ==>
                  tasks[j] != null && tasks[j] in lanes && SlotIn(tasks[j], j, Fresh, g, keys, values, sink)
    {
      var lane := new Lane(g, keys, values, sink, k);
      tasks[k] := lane;
      lanes := lanes + {lane};
    }
  }

  /**
   * One pass of the driver's `for` loop: visit the slots `0 .. g - 1` in
   * order, advancing every live lane by one step and emptying the slots of
   * exhausted lanes.
   */
  method Pass(tasks: array<Lane?>, live: nat, ghost lanes: set<Lane>, ghost st: Stage, ghost steps: nat,
              ghost keys: seq<int>, ghost values: seq<int>, sink: ResultSink) returns (remaining: nat)
    requires tasks.Length >= 1
    requires forall j :: 0 <= j < tasks.Length && tasks[j] != null ==> tasks[j] in lanes
    requires live == LiveCount(tasks[..])
    requires steps == Steps(|keys|)
    requires st.Probing? ==> 0 < steps && st.m < steps
    requires st.Drained? ==> steps == 0
    requires forall j :: 0 <= j < tasks.Length ==> SlotIn(tasks[j], j, st, tasks.Length, keys, values, sink)
    requires sink.items == Emitted(st, keys, values, tasks.Length)
    modifies tasks, sink, lanes
    ensures remaining == LiveCount(tasks[..])
    ensures forall j :: 0 <= j < tasks.Length ==>
              SlotIn(tasks[j], j, NextStage(st, steps, tasks.Length), tasks.Length, keys, values, sink)
    ensures forall j :: 0 <= j < tasks.Length && tasks[j] != null ==> tasks[j] in lanes
    ensures sink.items == Emitted(NextStage(st, steps, tasks.Length), keys, values, tasks.Length)
  {
    var g := tasks.Length;
    EmittedDuringEnds(st, steps, keys, values, g);
    remaining := live;
    for i := 0 to g
      invariant remaining == LiveCount(tasks[..])
      invariant forall j :: 0 <= j < g ==>
                  SlotIn(tasks[j], j, if j < i then NextStage(st, steps, g) else st, g, keys, values, sink)
      invariant forall j :: 0 <= j < g && tasks[j] != null ==> tasks[j] in lanes && tasks[j].slot == j
      invariant sink.items == EmittedDuring(st, steps, keys, values, g, i)
    {
      ghost var before := tasks[..];
      var retired := Visit(tasks, i, lanes, st, steps, keys, values, sink);
      if retired {
        RetireOne(before, i);
        remaining := remaining - 1;
      } else {
        assert tasks[..] == before;
      }
    }
  }

  /**
   * `InterleavedEnumerable`: create `g` lanes, lane `i` taking the queries
   * `i, i + g, i + 2g, ...`, then pass over the slots in order until every
   * lane is exhausted, advancing each live lane by one `MoveNext` per pass.
   * Every query is answered once; the answers come out in query order
   * whenever every search needs at least one probe (or there is one lane, or
   * the array is empty).  With a single key no lane ever suspends, so the
   * first pass drains the lanes one after another: lane 0's queries, then
   * lane 1's, and so on, a permutation of the sequential results.
   */
  method InterleavedEnumerable(capacity: int, g: int, keys: seq<int>, values: seq<int>)
    returns (res: Option<seq<int>>)
    ensures res.None? <==> capacity < 0 || g < 0
    ensures capacity >= 0 && g == 0 ==> res == Some([])
    ensures capacity >= 0 && g >= 1 ==>
              res.Some? && |res.value| == |values| && multiset(res.value) == multiset(Expected(keys, values))
    ensures capacity >= 0 && g >= 1 && (g == 1 || |keys| != 1) ==> res == Some(Expected(keys, values))
    ensures capacity >= 0 && g >= 1 && |keys| == 1 ==> res == Some(Columns(Expected(keys, values), g, g))
  {
    if capacity < 0 {
      // List<int>.Capacity rejects a value below the list's count, here 0
      return None;
    }
    if g < 0 {
      // Enumerable.Range(0, G) rejects a negative count
      return None;
    }
    var sink := new ResultSink();
    if g == 0 {
      // no lanes: the driver's loop is skipped
      return Some(sink.items);
    }
    var tasks;
    ghost var lanes;
    tasks, lanes := CreateLanes(keys, values, g, sink);
    ghost var steps := Steps(|keys|);
    AllLive(tasks[..]);
    var live := g;
    ghost var st := Fresh;
    while live > 0
      invariant live == LiveCount(tasks[..])
      invariant forall j :: 0 <= j < g ==> SlotIn(tasks[j], j, st, g, keys, values, sink)
      invariant forall j :: 0 <= j < g && tasks[j] != null ==> tasks[j] in lanes
      invariant sink.items == Emitted(st, keys, values, g)
      invariant st.Probing? ==> 0 < steps && st.m < steps
      invariant st.Drained? ==> steps == 0
      decreases (if st.Fresh? then 1 else 0),
                (if st.Probing? && st.base < |values| then |values| - st.base else 0),
                (if st.Probing? then steps - st.m else 0)
    {
      ghost var j0 := SomeLive(tasks[..]);
      assert SlotIn(tasks[j0], j0, st, g, keys, values, sink);
      live := Pass(tasks, live, lanes, st, steps, keys, values, sink);
      st := NextStage(st, steps, g);
    }
    NoneLive(tasks[..]);
    assert SlotIn(tasks[0], 0, st, g, keys, values, sink);
    DrainedResults(tasks[..], st, steps, keys, values, sink);
    res := Some(sink.items);
  }
}
