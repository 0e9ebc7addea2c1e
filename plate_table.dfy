/**
 * The frequency table of the plate filter: a JavaScript `Map` from plate text
 * to its count. A JavaScript `Map` iterates in insertion order, and that order
 * decides ties in the mode scan, so the table keeps its keys as a sequence in
 * insertion order beside the counts.
 */
module PlateTable {

  /** A value or JavaScript's `null`. */
  datatype Maybe<T> = Null | Value(v: T)

  ghost predicate Distinct(keys: seq<string>) {
    forall i, j :: 0 <= i < j < |keys| ==> keys[i] != keys[j]
  }

  /** `keys` without `k`; every other key keeps its relative order. */
  function Remove(keys: seq<string>, k: string): (r: seq<string>)
    ensures forall x :: x in r <==> x in keys && x != k
    ensures |r| <= |keys|
    ensures Distinct(keys) ==> Distinct(r)
  {
    if keys == [] then []
    else if keys[0] == k then Remove(keys[1..], k)
    else
      assert Distinct(keys) ==> keys[0] !in keys[1..];
      [keys[0]] + Remove(keys[1..], k)
  }

  /** Removing the key at position `i` of a duplicate-free sequence closes the gap there. */
  lemma {:induction false} RemoveAt(keys: seq<string>, i: nat)
    requires Distinct(keys) && i < |keys|
    ensures Remove(keys, keys[i]) == keys[..i] + keys[i + 1..]
  {
    if i == 0 {
      RemoveAbsent(keys[1..], keys[0]);
    } else {
      assert keys[1..][i - 1] == keys[i];
      RemoveAt(keys[1..], i - 1);
      assert keys[..i] == [keys[0]] + keys[1..][..i - 1];
      assert keys[i + 1..] == keys[1..][i..];
    }
  }

  /** Removing a key that is not there changes nothing. */
  lemma {:induction false} RemoveAbsent(keys: seq<string>, k: string)
    requires k !in keys
    ensures Remove(keys, k) == keys
  {
    if keys != [] {
      assert keys[0] != k;
      assert k !in keys[1..];
      RemoveAbsent(keys[1..], k);
      assert keys == [keys[0]] + keys[1..];
    }
  }

  datatype Table = Table(keys: seq<string>, counts: map<string, int>) {

    /** The keys are listed once each, in insertion order, and they are exactly the keys with a count. */
    ghost predicate WellFormed() {
      && Distinct(keys)
      && (forall k :: k in keys ==> k in counts)
      && (forall k :: k in counts ==> k in keys)
    }

    /** `Map.prototype.size`. */
    function Size(): (n: nat)
      ensures WellFormed() ==> (n == 0 <==> counts == map[])
    {
      assert keys != [] ==> keys[0] in keys;
      |keys|
    }

    /** `map.get(k) || 0`: an absent key reads as 0. */
    function GetOrZero(k: string): int
    {
      if k in counts then counts[k] else 0
    }

    /**
     * `Map.prototype.set`: a key already present keeps its position, a new key
     * goes after all others.
     */
    function Set(k: string, c: int): (r: Table)
      ensures WellFormed() ==> r.WellFormed()
      ensures r.counts == counts[k := c]
      ensures |r.keys| == if k in keys then |keys| else |keys| + 1
      ensures r.keys[..|keys|] == keys
      ensures r.keys[|r.keys| - 1] == (if k in keys then keys[|keys| - 1] else k)
    {
      Table(if k in keys then keys else keys + [k], counts[k := c])
    }

    /** `Map.prototype.delete`: the key and its count go; every other key keeps its relative order. */
    function Delete(k: string): (r: Table)
      ensures WellFormed() ==> r.WellFormed()
      ensures r.counts == counts - {k}
      ensures forall x :: x in r.keys <==> x in keys && x != k
    {
      Table(Remove(keys, k), counts - {k})
    }

    /** `Map.prototype.clear`. */
    function Clear(): (r: Table)
      ensures r.WellFormed() && r.Size() == 0
    {
      Table([], map[])
    }
  }

  /**
   * Position `i` holds a greatest count, and every key inserted before it has
   * a strictly smaller count: it is the first maximum in insertion order.
   */
  ghost predicate IsFirstMax(keys: seq<string>, counts: map<string, int>, i: int)
    requires forall j :: 0 <= j < |keys| ==> keys[j] in counts
  {
    && 0 <= i < |keys|
    && (forall j :: 0 <= j < |keys| ==> counts[keys[j]] <= counts[keys[i]])
    && (forall j :: 0 <= j < i ==> counts[keys[j]] < counts[keys[i]])
  }

  /**
   * The position the mode scan of script.js settles on: it walks the keys in
   * order and moves to a key only when its count is strictly greater than the
   * best so far. It is -1 exactly when there are no keys.
   */
  function ModeIndex(keys: seq<string>, counts: map<string, int>): (i: int)
    requires forall j :: 0 <= j < |keys| ==> keys[j] in counts
    ensures -1 <= i < |keys|
    ensures i == -1 <==> keys == []
    ensures i != -1 ==> IsFirstMax(keys, counts, i)
    decreases |keys|
  {
    if keys == [] then -1
    else
      var init := keys[..|keys| - 1];
      var best := ModeIndex(init, counts);
      var last := keys[|keys| - 1];
      if best == -1 || counts[last] > counts[init[best]] then |keys| - 1 else best
  }

  /** One more step of the scan: the next key is taken only when its count beats the best so far. */
  lemma ModeIndexStep(keys: seq<string>, counts: map<string, int>, i: nat)
    requires forall j :: 0 <= j < |keys| ==> keys[j] in counts
    requires i < |keys|
    ensures forall j :: 0 <= j < |keys[..i]| ==> keys[..i][j] in counts
    ensures var best := ModeIndex(keys[..i], counts);
            ModeIndex(keys[..i + 1], counts) ==
              if best == -1 || counts[keys[i]] > counts[keys[best]] then i else best
  {
    assert keys[..i + 1][..i] == keys[..i];
  }

  /** The plate the mode scan returns, or `null` for an empty table. */
  function Mode(t: Table): Maybe<string>
    requires t.WellFormed()
  {
    var i := ModeIndex(t.keys, t.counts);
    if i == -1 then Null else Value(t.keys[i])
  }

  /** The mode is `null` exactly when the table is empty. */
  lemma ModeNullIffEmpty(t: Table)
    requires t.WellFormed()
    ensures Mode(t) == Null <==> t.Size() == 0
    ensures Mode(t) == Null <==> t.counts == map[]
  {
  }

  /**
   * The mode is the key at position `i` if and only if position `i` is the
   * first maximum: ties go to the key inserted earliest.
   */
  lemma ModeIsFirstMax(t: Table, i: int)
    requires t.WellFormed() && 0 <= i < |t.keys|
    ensures Mode(t) == Value(t.keys[i]) <==> IsFirstMax(t.keys, t.counts, i)
  {
  }

  /** The mode has a count at least as great as every key of the table. */
  lemma ModeDominates(t: Table, k: string)
    requires t.WellFormed() && Mode(t) == Value(k)
    ensures k in t.counts
    ensures forall x :: x in t.counts ==> t.counts[x] <= t.counts[k]
  {
    var m := ModeIndex(t.keys, t.counts);
    forall x | x in t.counts
      ensures t.counts[x] <= t.counts[k]
    {
      var j :| 0 <= j < |t.keys| && t.keys[j] == x;
      assert t.counts[t.keys[j]] <= t.counts[t.keys[m]];
    }
  }
}
