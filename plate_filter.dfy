/**
 * The plate-smoothing filter of script.js as a function on its state: a
 * bounded window of the last plates read, their frequency table, and the
 * streak of frames in which nothing was read. `Step` is one call of
 * `getPredictPlate`; `Run` is a sequence of calls.
 */
module PlateFilter {
  import opened PlateTable

  /** The window keeps at most this many plates. */
  const Capacity: nat := 10
  /** The miss streak at which the filter reports the sentinel and clears itself. */
  const MissLimit: nat := 10
  /** The string returned when the miss streak reaches `MissLimit`. */
  const Sentinel: string := "None"

  /** `predictQueue`, `predictMap` and `tmp`. */
  datatype Filter = Filter(queue: seq<string>, table: Table, misses: nat)

  /** The state after one call, and what the call returned. */
  datatype Outcome = Outcome(next: Filter, shown: Maybe<string>)

  /** The state at load time and after an upload starts. */
  const Fresh: Filter := Filter([], Table([], map[]), 0)

  /** JavaScript falsiness of the argument: `null` and the empty string are misses. */
  predicate IsMiss(input: Maybe<string>) {
    input.Null? || input.v == ""
  }

  /** The table counts exactly the plates of the window. */
  ghost predicate Tallies(queue: seq<string>, table: Table) {
    && table.WellFormed()
    && (forall k :: k in table.counts <==> k in queue)
    && (forall k :: k in table.counts ==> table.counts[k] == multiset(queue)[k])
  }

  /** What holds between calls. */
  ghost predicate Consistent(f: Filter) {
    && |f.queue| <= Capacity
    && "" !in f.queue
    && Tallies(f.queue, f.table)
    && (f.misses >= MissLimit ==> f.queue == [])
  }

  /** `push` and `set(p, (get(p) || 0) + 1)`: append a plate to the window and count it. */
  function Push(queue: seq<string>, table: Table, p: string): (r: (seq<string>, Table))
  {
    (queue + [p], table.Set(p, table.GetOrZero(p) + 1))
  }

  /**
   * `shift`, then decrement the count of the plate shifted out and delete its
   * key when the count reaches 0.
   */
  function Shift(queue: seq<string>, table: Table): (r: (seq<string>, Table))
    requires queue != []
    ensures table.WellFormed() ==> r.1.WellFormed()
  {
    var oldest := queue[0];
    var dropped := table.Set(oldest, table.GetOrZero(oldest) - 1);
    (queue[1..], if dropped.counts[oldest] == 0 then dropped.Delete(oldest) else dropped)
  }

  /**
   * A plate was read: append it, count it, and once the window holds more than
   * `Capacity` plates drop the oldest one.
   */
  function Record(f: Filter, p: string): (g: Filter)
    ensures f.table.WellFormed() ==> g.table.WellFormed()
    ensures g.misses == 0
  {
    var (queue, table) := Push(f.queue, f.table, p);
    if |queue| > Capacity then
      var (queue', table') := Shift(queue, table);
      Filter(queue', table', 0)
    else
      Filter(queue, table, 0)
  }

  /**
   * The mode scan and the streak check that end every call that goes past the
   * early return: at the limit the window and table are cleared (the streak is
   * kept) and the sentinel is returned; otherwise the mode is.
   */
  function Conclude(g: Filter): Outcome
    requires g.table.WellFormed()
  {
    var mode := Mode(g.table);
    if g.misses == MissLimit then Outcome(Filter([], g.table.Clear(), g.misses), Value(Sentinel))
    else Outcome(g, mode)
  }

  /** One call of `getPredictPlate`. */
  function Step(f: Filter, input: Maybe<string>): Outcome
    requires f.table.WellFormed()
  {
    if IsMiss(input) then
      Conclude(f.(misses := f.misses + 1))
    else
      var g := Record(f, input.v);
      if g.table.Size() == 0 then Outcome(g, Null) else Conclude(g)
  }

  /** The state and the list of returned values after a sequence of calls. */
  datatype Trace = Trace(next: Filter, shown: seq<Maybe<string>>)

  /** Feeds `inputs` to the filter in order. */
  function Run(f: Filter, inputs: seq<Maybe<string>>): (t: Trace)
    requires Consistent(f)
    ensures Consistent(t.next)
    ensures |t.shown| == |inputs|
    decreases |inputs|
  {
    if inputs == [] then Trace(f, [])
    else
      var t := Run(f, inputs[..|inputs| - 1]);
      var x := inputs[|inputs| - 1];
      StepKeepsConsistent(t.next, x);
      var o := Step(t.next, x);
      Trace(o.next, t.shown + [o.shown])
  }

  /** A further call extends the trace by one step from the state the trace reached. */
  lemma RunSnoc(f: Filter, inputs: seq<Maybe<string>>, x: Maybe<string>, g: Filter, shown: seq<Maybe<string>>)
    requires Consistent(f) && Run(f, inputs) == Trace(g, shown)
    ensures Consistent(g)
    ensures Run(f, inputs + [x]) == Trace(Step(g, x).next, shown + [Step(g, x).shown])
  {
    assert (inputs + [x])[..|inputs|] == inputs;
  }

  /** `n` copies of `x`. */
  function Repeat<T>(x: T, n: nat): (r: seq<T>)
    ensures |r| == n
    ensures forall i :: 0 <= i < n ==> r[i] == x
  {
    if n == 0 then [] else Repeat(x, n - 1) + [x]
  }

  // ---------------------------------------------------------------------------
  // The invariant

  /** Appending a plate and counting it keeps the table in step with the window. */
  lemma PushKeepsTallies(queue: seq<string>, table: Table, p: string)
    requires Tallies(queue, table)
    ensures Tallies(Push(queue, table, p).0, Push(queue, table, p).1)
  {
    var q := queue + [p];
    assert multiset(q) == multiset(queue) + multiset{p};
    assert p !in table.counts ==> multiset(queue)[p] == 0;
  }

  /** Dropping the oldest plate and decrementing (or deleting) its key keeps the table in step. */
  lemma ShiftKeepsTallies(queue: seq<string>, table: Table)
    requires Tallies(queue, table) && queue != []
    ensures queue[0] in table.counts
    ensures Tallies(Shift(queue, table).0, Shift(queue, table).1)
  {
    var o, rest := queue[0], queue[1..];
    assert o in queue;
    assert queue == [o] + rest;
    var r := Shift(queue, table).1;
    forall k
      ensures k in r.counts <==> k in rest
      ensures k in r.counts ==> r.counts[k] == multiset(rest)[k]
    {
      assert multiset(queue)[k] == multiset(rest)[k] + (if k == o then 1 else 0);
    }
  }

  /** A call that records a plate keeps the window and table consistent. */
  lemma RecordKeepsTallies(f: Filter, p: string)
    requires Consistent(f)
    ensures Tallies(Record(f, p).queue, Record(f, p).table)
    ensures Record(f, p).misses == 0
  {
    PushKeepsTallies(f.queue, f.table, p);
    var (queue, table) := Push(f.queue, f.table, p);
    if |queue| > Capacity {
      ShiftKeepsTallies(queue, table);
    }
  }

  /** The window after a plate is recorded: the plate is appended, and the oldest dropped once past capacity. */
  lemma RecordQueue(f: Filter, p: string)
    requires Consistent(f)
    ensures Record(f, p).queue == if |f.queue| < Capacity then f.queue + [p] else f.queue[1..] + [p]
  {
    if |f.queue| == Capacity {
      assert (f.queue + [p])[1..] == f.queue[1..] + [p];
    }
  }

  /** The state a call leaves behind, whatever it returns. */
  lemma StepNext(f: Filter, input: Maybe<string>)
    requires Consistent(f)
    ensures Step(f, input).next ==
      if !IsMiss(input) then Record(f, input.v)
      else if f.misses + 1 == MissLimit then Filter([], Table([], map[]), MissLimit)
      else f.(misses := f.misses + 1)
  {
    if !IsMiss(input) {
      RecordKeepsTallies(f, input.v);
      var g := Record(f, input.v);
      assert Conclude(g).next == g;
    }
  }

  /** Recording a plate keeps the invariant. */
  lemma RecordKeepsConsistent(f: Filter, p: string)
    requires Consistent(f) && p != ""
    ensures Consistent(Record(f, p))
  {
    RecordKeepsTallies(f, p);
    RecordQueue(f, p);
    var g := Record(f, p);
    assert |g.queue| <= Capacity;
    assert "" !in g.queue;
    assert g.misses == 0;
  }

  /**
   * Every call keeps the invariant: at most `Capacity` plates in the window,
   * none of them empty, the table holding exactly the window's plates with
   * their numbers of occurrences, and an empty window once the streak has
   * reached `MissLimit`.
   */
  lemma StepKeepsConsistent(f: Filter, input: Maybe<string>)
    requires Consistent(f)
    ensures Consistent(Step(f, input).next)
  {
    StepNext(f, input);
    if !IsMiss(input) {
      RecordKeepsConsistent(f, input.v);
    }
  }

  /** A sum of counts over a list of keys. */
  ghost function CountTotal(keys: seq<string>, counts: map<string, int>): int
    requires forall j :: 0 <= j < |keys| ==> keys[j] in counts
  {
    if keys == [] then 0 else counts[keys[0]] + CountTotal(keys[1..], counts)
  }

  /** How many plates of `q` equal one of `keys`, counting each key separately. */
  ghost function Occurrences(keys: seq<string>, q: seq<string>): nat {
    if keys == [] then 0 else multiset(q)[keys[0]] + Occurrences(keys[1..], q)
  }

  lemma {:induction false} OccurrencesInEmpty(keys: seq<string>)
    ensures Occurrences(keys, []) == 0
  {
    if keys != [] {
      OccurrencesInEmpty(keys[1..]);
    }
  }

  lemma {:induction false} OccurrencesSnoc(keys: seq<string>, q: seq<string>, x: string)
    requires Distinct(keys)
    ensures Occurrences(keys, q + [x]) == Occurrences(keys, q) + (if x in keys then 1 else 0)
  {
    if keys != [] {
      assert Distinct(keys[1..]) by {
        forall i, j | 0 <= i < j < |keys[1..]|
          ensures keys[1..][i] != keys[1..][j]
        {
          assert keys[1..][i] == keys[i + 1] && keys[1..][j] == keys[j + 1];
        }
      }
      OccurrencesSnoc(keys[1..], q, x);
      assert multiset(q + [x]) == multiset(q) + multiset{x};
      assert keys == [keys[0]] + keys[1..];
      assert x == keys[0] ==> x !in keys[1..];
    }
  }

  /** When `keys` lists every plate of `q` once, the occurrences add up to the length of `q`. */
  lemma {:induction false} OccurrencesCover(keys: seq<string>, q: seq<string>)
    requires Distinct(keys)
    requires forall x :: x in q ==> x in keys
    ensures Occurrences(keys, q) == |q|
  {
    if q == [] {
      OccurrencesInEmpty(keys);
    } else {
      var init, x := q[..|q| - 1], q[|q| - 1];
      assert q == init + [x];
      OccurrencesCover(keys, init);
      OccurrencesSnoc(keys, init, x);
    }
  }

  lemma {:induction false} TotalIsOccurrences(keys: seq<string>, counts: map<string, int>, q: seq<string>)
    requires forall j :: 0 <= j < |keys| ==> keys[j] in counts && counts[keys[j]] == multiset(q)[keys[j]]
    ensures CountTotal(keys, counts) == Occurrences(keys, q)
  {
    if keys != [] {
      TotalIsOccurrences(keys[1..], counts, q);
    }
  }

  /** Reading a plate's count with a default of 0 gives its number of occurrences in the window, present or not. */
  lemma GetOrZeroIsOccurrences(queue: seq<string>, table: Table, k: string)
    requires Tallies(queue, table)
    ensures table.GetOrZero(k) == multiset(queue)[k]
  {
  }

  /** The counts of the table add up to the length of the window. */
  lemma CountsSumToLength(f: Filter)
    requires Consistent(f)
    ensures CountTotal(f.table.keys, f.table.counts) == |f.queue|
  {
    TotalIsOccurrences(f.table.keys, f.table.counts, f.queue);
    OccurrencesCover(f.table.keys, f.queue);
  }

  /** Every key of the table has a count of at least 1 and at most `Capacity`. */
  lemma CountsPositive(f: Filter, k: string)
    requires Consistent(f) && k in f.table.counts
    ensures 1 <= f.table.counts[k] <= Capacity
  {
    assert multiset(f.queue)[k] <= |multiset(f.queue)|;
  }

  // ---------------------------------------------------------------------------
  // One call

  /**
   * A plate read always leaves a non-empty table: the early `null` return
   * after recording a plate is never taken.
   */
  lemma EarlyReturnUnreachable(f: Filter, p: string)
    requires Consistent(f) && p != ""
    ensures p in Record(f, p).table.counts
    ensures Record(f, p).table.Size() != 0
  {
    RecordKeepsTallies(f, p);
    RecordQueue(f, p);
    var g := Record(f, p);
    assert g.queue[|g.queue| - 1] == p;
    assert p in g.table.counts;
  }

  lemma RecordConcludes(f: Filter, p: string)
    requires Consistent(f) && p != ""
    requires Record(f, p).table.Size() != 0
    ensures Step(f, Value(p)) == Outcome(Record(f, p), Mode(Record(f, p).table))
  {
    RecordKeepsTallies(f, p);
    var g := Record(f, p);
    assert Conclude(g) == Outcome(g, Mode(g.table));
  }

  /** A plate read results in the recorded state and its mode. */
  lemma PlateStep(f: Filter, p: string)
    requires Consistent(f) && p != ""
    ensures Step(f, Value(p)) == Outcome(Record(f, p), Mode(Record(f, p).table))
  {
    EarlyReturnUnreachable(f, p);
    RecordConcludes(f, p);
  }

  /**
   * A plate read resets the streak, becomes the newest plate of the window and
   * is counted; the call returns the mode of the new table, which is some
   * plate and not `null`.
   */
  lemma PlateObserved(f: Filter, p: string)
    requires Consistent(f) && p != ""
    ensures var o := Step(f, Value(p));
            && o.next.misses == 0
            && |o.next.queue| == (if |f.queue| < Capacity then |f.queue| + 1 else Capacity)
            && o.next.queue[|o.next.queue| - 1] == p
            && p in o.next.table.counts
            && o.shown == Mode(o.next.table)
            && o.shown.Value?
  {
    PlateStep(f, p);
    RecordedPlate(f, p);
    var g := Record(f, p);
    ModeNullIffEmpty(g.table);
    assert Step(f, Value(p)).next == g;
  }

  /** The window after a plate read ends with that plate, and the table counts it. */
  lemma RecordedPlate(f: Filter, p: string)
    requires Consistent(f) && p != ""
    ensures var g := Record(f, p);
            && |g.queue| == (if |f.queue| < Capacity then |f.queue| + 1 else Capacity)
            && g.queue[|g.queue| - 1] == p
            && p in g.table.counts
            && g.table.Size() != 0
  {
    EarlyReturnUnreachable(f, p);
    RecordQueue(f, p);
  }

  /** `set` of a bumped count: the plate is counted once more, and a new key goes last. */
  lemma PushTable(queue: seq<string>, table: Table, p: string)
    requires table.WellFormed()
    ensures Push(queue, table, p).1.counts == table.counts[p := table.GetOrZero(p) + 1]
    ensures Push(queue, table, p).1.keys == if p in table.counts then table.keys else table.keys + [p]
  {
  }

  /**
   * Shifting the oldest plate `o` out: its count drops by exactly 1, and its
   * key is deleted exactly when that leaves 0.
   */
  lemma ShiftTable(queue: seq<string>, table: Table)
    requires table.WellFormed() && queue != [] && queue[0] in table.counts
    ensures var o, r := queue[0], Shift(queue, table).1;
            && (o in r.counts <==> table.counts[o] != 1)
            && (o in r.counts ==> r.counts[o] == table.counts[o] - 1 && r.keys == table.keys)
            && (o !in r.counts ==> r.keys == Remove(table.keys, o))
  {
  }

  /** Shifting the oldest plate `o` out changes no other key. */
  lemma ShiftOthers(queue: seq<string>, table: Table)
    requires queue != []
    ensures var o, r := queue[0], Shift(queue, table).1;
            && (forall k :: k != o ==> (k in r.counts <==> k in table.counts))
            && (forall k :: k != o && k in table.counts ==> r.counts[k] == table.counts[k])
  {
  }

  /** Below capacity nothing is shifted out. */
  lemma RecordBelowCapacity(f: Filter, p: string)
    requires |f.queue| < Capacity
    ensures Record(f, p) == Filter(Push(f.queue, f.table, p).0, Push(f.queue, f.table, p).1, 0)
  {
  }

  /** At capacity the oldest plate is shifted out after the new one is pushed. */
  lemma RecordAtCapacity(f: Filter, p: string)
    requires Consistent(f) && |f.queue| == Capacity
    ensures Tallies(Push(f.queue, f.table, p).0, Push(f.queue, f.table, p).1)
    ensures Push(f.queue, f.table, p).0 != []
    ensures Record(f, p) == Filter(Shift(Push(f.queue, f.table, p).0, Push(f.queue, f.table, p).1).0,
                                   Shift(Push(f.queue, f.table, p).0, Push(f.queue, f.table, p).1).1, 0)
  {
    PushKeepsTallies(f.queue, f.table, p);
  }

  /**
   * While the window is not full a plate read is appended and counted, and
   * nothing is evicted: a new key goes after all others. (`StepNext` says the
   * call leaves exactly this recorded state.)
   */
  lemma NoEvictionBelowCapacity(f: Filter, p: string)
    requires f.table.WellFormed() && |f.queue| < Capacity
    ensures var g := Record(f, p);
            && g.queue == f.queue + [p]
            && g.table.counts == f.table.counts[p := f.table.GetOrZero(p) + 1]
            && g.table.keys == (if p in f.table.counts then f.table.keys else f.table.keys + [p])
  {
    RecordBelowCapacity(f, p);
    PushTable(f.queue, f.table, p);
  }

  /**
   * Pushing `p` and then shifting the oldest plate `o` out: `o`'s count ends
   * 1 lower than before the shift, and its key is deleted if and only if that
   * count is 0.
   */
  lemma PushThenShiftOldest(queue: seq<string>, table: Table, p: string)
    requires table.WellFormed() && queue != [] && queue[0] in table.counts
    ensures var r := Shift(Push(queue, table, p).0, Push(queue, table, p).1).1;
            var o := queue[0];
            var pushed := if p in table.counts then table.keys else table.keys + [p];
            var left := table.counts[o] + (if o == p then 1 else 0) - 1;
            && (o in r.counts <==> left != 0)
            && (o in r.counts ==> r.counts[o] == left && r.keys == pushed)
            && (o !in r.counts ==> r.keys == Remove(pushed, o))
  {
    var pq := Push(queue, table, p).0;
    var pt := Push(queue, table, p).1;
    PushTable(queue, table, p);
    assert pq[0] == queue[0];
    ShiftTable(pq, pt);
  }

  /** Pushing `p` and then shifting the oldest plate `o` out changes no key other than `o` and `p`. */
  lemma PushThenShiftOthers(queue: seq<string>, table: Table, p: string)
    requires queue != []
    ensures var r := Shift(Push(queue, table, p).0, Push(queue, table, p).1).1;
            var o := queue[0];
            && (p != o ==> p in r.counts && r.counts[p] == table.GetOrZero(p) + 1)
            && (forall k :: k != o && k != p ==>
                  (k in r.counts <==> k in table.counts) &&
                  (k in table.counts ==> r.counts[k] == table.counts[k]))
  {
    var pq := Push(queue, table, p).0;
    var pt := Push(queue, table, p).1;
    var o := queue[0];
    assert pq[0] == o;
    ShiftOthers(pq, pt);
    var r := Shift(pq, pt).1;
  }

  /**
   * When the window is full a plate read evicts exactly the oldest plate `o`:
   * its count drops by 1 (after `p` itself was counted), its key is deleted if
   * and only if that count reaches 0, and no other key changes its count or
   * its place in the insertion order.
   */
  lemma EvictOldest(f: Filter, p: string)
    requires Consistent(f) && p != "" && |f.queue| == Capacity
    ensures var g := Record(f, p);
            var o := f.queue[0];
            var pushed := if p in f.table.counts then f.table.keys else f.table.keys + [p];
            var left := f.table.GetOrZero(o) + (if o == p then 1 else 0) - 1;
            && g.queue == f.queue[1..] + [p]
            && (o in g.table.counts <==> left != 0)
            && (o in g.table.counts ==> g.table.counts[o] == left && g.table.keys == pushed)
            && (o !in g.table.counts ==> g.table.keys == Remove(pushed, o))
            && (p != o ==> p in g.table.counts && g.table.counts[p] == f.table.GetOrZero(p) + 1)
            && (forall k :: k != o && k != p ==>
                  (k in g.table.counts <==> k in f.table.counts) &&
                  (k in f.table.counts ==> g.table.counts[k] == f.table.counts[k]))
  {
    RecordQueue(f, p);
    RecordAtCapacity(f, p);
    assert f.queue[0] in f.queue;
    PushThenShiftOldest(f.queue, f.table, p);
    PushThenShiftOthers(f.queue, f.table, p);
  }

  /**
   * A miss below the limit only lengthens the streak: the window and table are
   * unchanged and the call returns their mode, `null` when the table is empty.
   */
  lemma MissBelowLimit(f: Filter, input: Maybe<string>)
    requires Consistent(f) && IsMiss(input) && f.misses + 1 != MissLimit
    ensures var o := Step(f, input);
            && o.next == f.(misses := f.misses + 1)
            && o.shown == Mode(f.table)
            && (o.shown == Null <==> f.table.Size() == 0)
  {
    ModeNullIffEmpty(f.table);
  }

  /**
   * The `MissLimit`-th miss in a row returns the sentinel and empties the
   * window and table, but leaves the streak at `MissLimit`.
   */
  lemma MissAtLimit(f: Filter, input: Maybe<string>)
    requires Consistent(f) && IsMiss(input) && f.misses + 1 == MissLimit
    ensures Step(f, input) == Outcome(Filter([], Table([], map[]), MissLimit), Value(Sentinel))
  {
  }

  /** A window emptied by the streak stays empty: the table is empty too. */
  lemma EmptyWindowEmptyTable(f: Filter)
    requires Consistent(f) && f.queue == []
    ensures f.table == Table([], map[])
  {
    assert forall k :: k !in f.table.counts;
    assert f.table.counts == map[];
    assert f.table.Size() == 0;
  }

  /**
   * Past the limit, further misses return `null` and keep lengthening the
   * streak, so the sentinel is returned at most once per run of misses.
   */
  lemma {:induction false} MissesPastLimit(f: Filter, inputs: seq<Maybe<string>>)
    requires Consistent(f) && f.misses >= MissLimit
    requires forall i :: 0 <= i < |inputs| ==> IsMiss(inputs[i])
    ensures Run(f, inputs) == Trace(Filter([], Table([], map[]), f.misses + |inputs|), Repeat(Null, |inputs|))
  {
    EmptyWindowEmptyTable(f);
    if inputs != [] {
      var init := inputs[..|inputs| - 1];
      MissesPastLimit(f, init);
    }
  }

  /**
   * A run of misses that stays below the limit only lengthens the streak, and
   * every call of it returns the mode of the unchanged table.
   */
  lemma {:induction false} MissRun(f: Filter, inputs: seq<Maybe<string>>)
    requires Consistent(f) && f.misses + |inputs| < MissLimit
    requires forall i :: 0 <= i < |inputs| ==> IsMiss(inputs[i])
    ensures Run(f, inputs) == Trace(f.(misses := f.misses + |inputs|), Repeat(Mode(f.table), |inputs|))
  {
    if inputs != [] {
      var init := inputs[..|inputs| - 1];
      MissRun(f, init);
      MissBelowLimit(f.(misses := f.misses + |init|), inputs[|inputs| - 1]);
    }
  }

  /**
   * The miss that brings the streak to `MissLimit` returns the sentinel, after
   * the earlier misses of the run returned the mode; the window and table end
   * empty.
   */
  lemma StreakEndsInSentinel(f: Filter, inputs: seq<Maybe<string>>)
    requires Consistent(f) && inputs != [] && f.misses + |inputs| == MissLimit
    requires forall i :: 0 <= i < |inputs| ==> IsMiss(inputs[i])
    ensures Run(f, inputs) ==
      Trace(Filter([], Table([], map[]), MissLimit), Repeat(Mode(f.table), |inputs| - 1) + [Value(Sentinel)])
  {
    var init := inputs[..|inputs| - 1];
    MissRun(f, init);
    MissAtLimit(f.(misses := f.misses + |init|), inputs[|inputs| - 1]);
  }

  /**
   * From a fresh filter, nine misses return `null` and the tenth returns the
   * sentinel, although no plate was ever read.
   */
  lemma TenMissesFromFresh()
    ensures Run(Fresh, Repeat(Null, MissLimit)) ==
      Trace(Filter([], Table([], map[]), MissLimit), Repeat(Null, MissLimit - 1) + [Value(Sentinel)])
  {
    StreakEndsInSentinel(Fresh, Repeat(Null, MissLimit));
  }

  // ---------------------------------------------------------------------------
  // Reset and repeated plates

  /** A plate read into an empty window is returned: nothing is left from before. */
  lemma PlateIntoEmpty(f: Filter, p: string)
    requires Consistent(f) && f.queue == [] && p != ""
    ensures Step(f, Value(p)) == Outcome(Filter([p], Table([p], map[p := 1]), 0), Value(p))
  {
    EmptyWindowEmptyTable(f);
  }

  /** After a reset a miss returns `null`, and a plate read returns that plate. */
  lemma AfterReset(p: string)
    requires p != ""
    ensures Consistent(Fresh)
    ensures Step(Fresh, Null) == Outcome(Fresh.(misses := 1), Null)
    ensures Step(Fresh, Value("")) == Outcome(Fresh.(misses := 1), Null)
    ensures Step(Fresh, Value(p)).shown == Value(p)
  {
    PlateIntoEmpty(Fresh, p);
  }

  lemma {:induction false} MultisetOfRepeat(p: string, n: nat)
    ensures multiset(Repeat(p, n))[p] == n
    ensures forall x :: x in multiset(Repeat(p, n)) ==> x == p
  {
    if n > 0 {
      MultisetOfRepeat(p, n - 1);
    }
  }

  /** The first two entries of a duplicate-free sequence differ. */
  lemma DistinctFirstTwo(keys: seq<string>)
    requires Distinct(keys) && |keys| > 1
    ensures keys[0] != keys[1]
  {
  }

  /** A window holding only copies of `p` has the table `p`, counted once per copy, or none. */
  lemma OnlyCopiesTable(f: Filter, p: string)
    requires Consistent(f) && f.queue == Repeat(p, |f.queue|)
    ensures f.table == if f.queue == [] then Table([], map[]) else Table([p], map[p := |f.queue|])
  {
    if f.queue == [] {
      EmptyWindowEmptyTable(f);
    } else {
      MultisetOfRepeat(p, |f.queue|);
      var keys := f.table.keys;
      assert f.queue[0] in f.queue;
      assert forall k :: k in f.table.counts ==> k == p;
      assert f.table.counts == map[p := |f.queue|];
      assert f.table.Size() != 0;
      assert forall j :: 0 <= j < |keys| ==> keys[j] in keys;
      if |keys| > 1 {
        DistinctFirstTwo(keys);
        assert false;
      }
      assert keys == [p];
    }
  }

  lemma RecordCopiesQueue(f: Filter, p: string)
    requires Consistent(f) && f.queue == Repeat(p, |f.queue|)
    ensures Record(f, p).queue == Repeat(p, if |f.queue| < Capacity then |f.queue| + 1 else Capacity)
  {
    RecordQueue(f, p);
    if |f.queue| == Capacity {
      RepeatShift(p, Capacity);
    }
  }

  /** Dropping the first copy and appending one more gives the same copies. */
  lemma RepeatShift<T>(x: T, n: nat)
    requires n > 0
    ensures Repeat(x, n)[1..] + [x] == Repeat(x, n)
  {
  }

  /** Recording `p` into a window of copies of `p` adds a copy, up to `Capacity`. */
  lemma RecordCopies(f: Filter, p: string)
    requires Consistent(f) && p != "" && f.queue == Repeat(p, |f.queue|)
    ensures var n := if |f.queue| < Capacity then |f.queue| + 1 else Capacity;
            Record(f, p) == Filter(Repeat(p, n), Table([p], map[p := n]), 0)
  {
    RecordCopiesQueue(f, p);
    RecordKeepsConsistent(f, p);
    OnlyCopiesTable(Record(f, p), p);
  }

  /** Reading `p` into a window of copies of `p` adds a copy (up to `Capacity`) and returns `p`. */
  lemma SamePlateStep(f: Filter, p: string)
    requires Consistent(f) && p != "" && f.queue == Repeat(p, |f.queue|)
    ensures var n := if |f.queue| < Capacity then |f.queue| + 1 else Capacity;
            Step(f, Value(p)) == Outcome(Filter(Repeat(p, n), Table([p], map[p := n]), 0), Value(p))
  {
    var n := if |f.queue| < Capacity then |f.queue| + 1 else Capacity;
    PlateStep(f, p);
    RecordCopies(f, p);
    assert Mode(Table([p], map[p := n])) == Value(p);
  }

  /**
   * Reading the same plate `p` again and again, from a window that holds
   * only `p` (an empty one, say), returns `p` on every call, and the window
   * fills up to `Capacity` copies of `p` and stays there.
   */
  lemma {:induction false} RepeatedPlate(f: Filter, p: string, n: nat)
    requires Consistent(f) && p != "" && f.queue == Repeat(p, |f.queue|)
    ensures var t := Run(f, Repeat(Value(p), n));
            && t.shown == Repeat(Value(p), n)
            && t.next.queue == Repeat(p, if |f.queue| + n < Capacity then |f.queue| + n else Capacity)
  {
    if n > 0 {
      RepeatedPlate(f, p, n - 1);
      var t := Run(f, Repeat(Value(p), n - 1));
      assert Repeat(Value(p), n)[..n - 1] == Repeat(Value(p), n - 1);
      SamePlateStep(t.next, p);
    }
  }
}
