/** The map of loaded classes, keyed by class name. The finder keeps it in a
    `LinkedHashMap`, whose iteration order is the order in which keys were
    first inserted; writing an existing key replaces its record and keeps
    its place. */
module Registries {
  import opened Optional
  import opened Classes
  import opened Seqs

  datatype Registry = Registry(order: seq<string>, records: map<string, ClassInfo>)

  /** The keys in `order` are distinct and are exactly the keys of `records`. */
  predicate Valid(r: Registry) {
    && (forall i, j | 0 <= i < j < |r.order| :: r.order[i] != r.order[j])
    && (forall k | k in r.records :: k in r.order)
    && (forall i | 0 <= i < |r.order| :: r.order[i] in r.records)
  }

  const Empty: Registry := Registry([], map[])

  /** `put(classInfo.getClassName(), classInfo)`. */
  function Put(r: Registry, c: ClassInfo): (r': Registry)
    requires Valid(r)
    ensures Valid(r')
    ensures r'.records == r.records[c.className := c]
    ensures c.className in r.records ==> r'.order == r.order
    ensures c.className !in r.records ==> r'.order == r.order + [c.className]
  {
    if c.className in r.records then Registry(r.order, r.records[c.className := c])
    else Registry(r.order + [c.className], r.records[c.className := c])
  }

  /** `values()`, in iteration order. */
  function Values(r: Registry): (vs: seq<ClassInfo>)
    requires Valid(r)
    ensures |vs| == |r.order|
    ensures forall i | 0 <= i < |vs| :: vs[i] == r.records[r.order[i]]
  {
    ValuesOf(r.order, r.records)
  }

  function ValuesOf(order: seq<string>, records: map<string, ClassInfo>): (vs: seq<ClassInfo>)
    requires forall i | 0 <= i < |order| :: order[i] in records
    ensures |vs| == |order|
    ensures forall i | 0 <= i < |vs| :: vs[i] == records[order[i]]
  {
    if order == [] then [] else [records[order[0]]] + ValuesOf(order[1..], records)
  }

  /** A write of a new name appends its record to the values. */
  lemma ValuesAfterPutNew(r: Registry, c: ClassInfo)
    requires Valid(r) && c.className !in r.records
    ensures Values(Put(r, c)) == Values(r) + [c]
  {
    var r' := Put(r, c);
    assert r'.order == r.order + [c.className];
    ValuesOfAppendNew(r.order, r.records, c.className, c);
  }

  lemma ValuesOfAppendNew(order: seq<string>, records: map<string, ClassInfo>, n: string, c: ClassInfo)
    requires forall i | 0 <= i < |order| :: order[i] in records
    requires n !in order
    ensures ValuesOf(order + [n], records[n := c]) == ValuesOf(order, records) + [c]
  {
    var vs, ws := ValuesOf(order, records), ValuesOf(order + [n], records[n := c]);
    forall i | 0 <= i < |vs| ensures ws[i] == vs[i] {
      assert (order + [n])[i] == order[i] != n;
    }
    assert ws[|vs|] == c;
  }

  /** A write of a present name replaces its record in place. */
  lemma ValuesAfterPutPresent(r: Registry, c: ClassInfo, i: nat)
    requires Valid(r) && i < |r.order| && r.order[i] == c.className
    ensures Values(Put(r, c)) == Values(r)[i := c]
  {
    var r' := Put(r, c);
    assert r'.order == r.order;
    assert forall j | 0 <= j < |r.order| && j != i :: r.order[j] != c.className;
    ValuesOfReplace(r.order, r.records, i, c);
  }

  lemma ValuesOfReplace(order: seq<string>, records: map<string, ClassInfo>, i: nat, c: ClassInfo)
    requires forall j | 0 <= j < |order| :: order[j] in records
    requires i < |order| && forall j | 0 <= j < |order| && j != i :: order[j] != order[i]
    ensures ValuesOf(order, records[order[i] := c]) == ValuesOf(order, records)[i := c]
  {
    var vs, ws := ValuesOf(order, records), ValuesOf(order, records[order[i] := c]);
    forall j | 0 <= j < |vs| ensures ws[j] == vs[i := c][j] {
      if j != i {
        assert order[j] != order[i];
      }
    }
  }

  /** Every value is stored under its own class name when every write went
      through `Put`. */
  predicate KeyedByName(r: Registry) {
    forall k | k in r.records :: r.records[k].className == k
  }

  /** The writes of `cs`, in order, on top of `r`. */
  function PutAll(r: Registry, cs: seq<ClassInfo>): (r': Registry)
    requires Valid(r)
    ensures Valid(r')
    ensures r.records.Keys <= r'.records.Keys
    decreases |cs|
  {
    if cs == [] then r else PutAll(Put(r, cs[0]), cs[1..])
  }

  /** The last record in `cs` with class name `k`. */
  function LastNamed(cs: seq<ClassInfo>, k: string): (o: Option<ClassInfo>)
    ensures o.Some? ==> o.value in cs && o.value.className == k
    ensures o.None? <==> forall i | 0 <= i < |cs| :: cs[i].className != k
  {
    if cs == [] then None
    else if cs[|cs| - 1].className == k then Some(cs[|cs| - 1])
    else LastNamed(cs[..|cs| - 1], k)
  }

  lemma LastNamedAppend(cs: seq<ClassInfo>, c: ClassInfo, k: string)
    ensures LastNamed(cs + [c], k) == if c.className == k then Some(c) else LastNamed(cs, k)
  {
    assert (cs + [c])[..|cs|] == cs;
  }

  /** Last write wins: after the writes of `cs`, a name holds the last
      record of `cs` with that name, and a name `cs` never writes keeps
      what it had. */
  lemma {:induction false} PutAllLastWriteWins(r: Registry, cs: seq<ClassInfo>, k: string)
    requires Valid(r)
    ensures k in PutAll(r, cs).records <==> k in r.records || LastNamed(cs, k).Some?
    ensures LastNamed(cs, k).Some? ==> PutAll(r, cs).records[k] == LastNamed(cs, k).value
    ensures LastNamed(cs, k).None? && k in r.records ==> PutAll(r, cs).records[k] == r.records[k]
    decreases |cs|
  {
    if cs != [] {
      var init := cs[..|cs| - 1];
      var c := cs[|cs| - 1];
      SplitLast(cs);
      PutAllSnoc(r, init, c);
      PutAllLastWriteWins(r, init, k);
      LastNamedAppend(init, c, k);
    }
  }

  /** The writes of `cs` followed by one more write. */
  lemma {:induction false} PutAllSnoc(r: Registry, cs: seq<ClassInfo>, c: ClassInfo)
    requires Valid(r)
    ensures PutAll(r, cs + [c]) == Put(PutAll(r, cs), c)
    decreases |cs|
  {
    if cs == [] {
      assert [] + [c] == [c];
      assert [c][1..] == [];
    } else {
      assert (cs + [c])[1..] == cs[1..] + [c];
      PutAllSnoc(Put(r, cs[0]), cs[1..], c);
    }
  }

  /** Two batches of writes are the first batch, then the second. */
  lemma {:induction false} PutAllAppend(r: Registry, cs: seq<ClassInfo>, ds: seq<ClassInfo>)
    requires Valid(r)
    ensures PutAll(r, cs + ds) == PutAll(PutAll(r, cs), ds)
    decreases |cs|
  {
    if cs == [] {
      assert cs + ds == ds;
    } else {
      assert (cs + ds)[1..] == cs[1..] + ds;
      PutAllAppend(Put(r, cs[0]), cs[1..], ds);
    }
  }

  /** Writes never reorder the keys already present: the old iteration
      order is a prefix of the new one. */
  lemma {:induction false} PutAllKeepsOrder(r: Registry, cs: seq<ClassInfo>)
    requires Valid(r)
    ensures |r.order| <= |PutAll(r, cs).order| && PutAll(r, cs).order[..|r.order|] == r.order
    decreases |cs|
  {
    if cs != [] {
      var r1 := Put(r, cs[0]);
      var rest := cs[1..];
      PutAllKeepsOrder(r1, rest);
      var last := PutAll(r1, rest);
      assert PutAll(r, cs) == last;
      assert r1.order[..|r.order|] == r.order;
      PrefixOfPrefix(r.order, r1.order, last.order);
    }
  }

  lemma PrefixOfPrefix<T>(a: seq<T>, b: seq<T>, c: seq<T>)
    requires |a| <= |b| <= |c| && b[..|a|] == a && c[..|b|] == b
    ensures c[..|a|] == a
  {
    assert c[..|a|] == c[..|b|][..|a|];
  }

  /** Writes through `Put` keep every record under its own class name. */
  lemma {:induction false} PutAllKeyedByName(r: Registry, cs: seq<ClassInfo>)
    requires Valid(r) && KeyedByName(r)
    ensures KeyedByName(PutAll(r, cs))
    decreases |cs|
  {
    if cs != [] {
      PutAllKeyedByName(Put(r, cs[0]), cs[1..]);
    }
  }
}
