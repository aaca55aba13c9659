/** A Map that keeps insertion order: a sequence of slots with distinct keys. */
module OrderedMap {
  import opened Text

  datatype Slot<+V> = Slot(key: string, value: V)

  ghost predicate DistinctKeys<V>(s: seq<Slot<V>>) {
    forall i, j :: 0 <= i < j < |s| ==> s[i].key != s[j].key
  }

  function IndexOf<V>(s: seq<Slot<V>>, key: string): (i: nat)
    ensures i <= |s| && (i < |s| ==> s[i].key == key)
    ensures forall j :: 0 <= j < i ==> s[j].key != key
  {
    if s == [] || s[0].key == key then 0 else 1 + IndexOf(s[1..], key)
  }

  predicate Has<V>(s: seq<Slot<V>>, key: string) {
    IndexOf(s, key) < |s|
  }

  function Get<V>(s: seq<Slot<V>>, key: string): Option<V> {
    var i := IndexOf(s, key);
    if i < |s| then Some(s[i].value) else None
  }

  /** Map.set: a present key keeps its place, a new one goes last. */
  function Put<V>(s: seq<Slot<V>>, key: string, value: V): (t: seq<Slot<V>>)
    ensures |t| == if Has(s, key) then |s| else |s| + 1
  {
    var i := IndexOf(s, key);
    if i < |s| then s[i := Slot(key, value)] else s + [Slot(key, value)]
  }

  function Delete<V>(s: seq<Slot<V>>, key: string): (t: seq<Slot<V>>)
    ensures |t| <= |s| && (Has(s, key) ==> |t| == |s| - 1)
  {
    var i := IndexOf(s, key);
    if i < |s| then s[..i] + s[i + 1..] else s
  }

  /** What is left when the doomed slots are deleted. */
  function Keep<V>(s: seq<Slot<V>>, doomed: Slot<V> -> bool): seq<Slot<V>> {
    if s == [] then []
    else (if doomed(s[0]) then [] else [s[0]]) + Keep(s[1..], doomed)
  }

  /** The loop over the Map that deletes as it goes. */
  method DropWhere<V>(s: seq<Slot<V>>, doomed: Slot<V> -> bool) returns (t: seq<Slot<V>>)
    ensures t == Keep(s, doomed)
  {
    t := s;
    var i := 0;
    assert t[0..] == t;
    while i < |t|
      invariant i <= |t| && t[..i] + Keep(t[i..], doomed) == Keep(s, doomed)
      decreases |t| - i
    {
      var was := t;
      assert was[i..][1..] == was[i + 1..];
      if doomed(t[i]) {
        t := t[..i] + t[i + 1..];
        assert t[..i] == was[..i] && t[i..] == was[i + 1..];
      } else {
        assert was[..i] + ([was[i]] + Keep(was[i + 1..], doomed)) == was[..i + 1] + Keep(was[i + 1..], doomed);
        i := i + 1;
      }
    }
    assert t[..i] == t && t[i..] == [];
  }

  lemma IndexIs<V>(s: seq<Slot<V>>, key: string, i: nat)
    requires i <= |s| && (i < |s| ==> s[i].key == key)
    requires forall j :: 0 <= j < i ==> s[j].key != key
    ensures IndexOf(s, key) == i
  {
  }

  lemma SlotGet<V>(s: seq<Slot<V>>, slot: Slot<V>)
    requires DistinctKeys(s) && slot in s
    ensures Get(s, slot.key) == Some(slot.value)
  {
    var i :| 0 <= i < |s| && s[i] == slot;
    IndexIs(s, slot.key, i);
  }

  lemma PutDistinct<V>(s: seq<Slot<V>>, key: string, value: V)
    requires DistinctKeys(s)
    ensures DistinctKeys(Put(s, key, value))
    ensures forall p <- Put(s, key, value) :: p in s || p == Slot(key, value)
  {
    var t := Put(s, key, value);
    assert forall j :: 0 <= j < |s| ==> t[j].key == s[j].key;
  }

  lemma PutGet<V>(s: seq<Slot<V>>, key: string, value: V, other: string)
    requires DistinctKeys(s)
    ensures Get(Put(s, key, value), other) == if other == key then Some(value) else Get(s, other)
  {
    var t := Put(s, key, value);
    var i, k := IndexOf(s, other), IndexOf(s, key);
    assert forall j :: 0 <= j < |s| ==> t[j].key == s[j].key;
    if i < |s| {
      IndexIs(t, other, i);
      assert i != k ==> t[i] == s[i];
    } else if other == key {
      IndexIs(t, other, |s|);
    } else {
      IndexIs(t, other, |t|);
    }
  }

  lemma DeleteDistinct<V>(s: seq<Slot<V>>, key: string)
    requires DistinctKeys(s)
    ensures DistinctKeys(Delete(s, key))
    ensures forall p <- Delete(s, key) :: p in s && p.key != key
  {
  }

  lemma DeleteGet<V>(s: seq<Slot<V>>, key: string, other: string)
    requires DistinctKeys(s)
    ensures Get(Delete(s, key), other) == if other == key then None else Get(s, other)
  {
    var t := Delete(s, key);
    var i, j := IndexOf(s, key), IndexOf(s, other);
    if i < |s| {
      forall k | 0 <= k < |t| ensures t[k] == s[if k < i then k else k + 1] {
      }
      IndexIs(t, other, if other == key || j == |s| then |t| else if j < i then j else j - 1);
    }
  }

  /** The one key entered before the other. */
  ghost predicate Ahead<V>(s: seq<Slot<V>>, first: string, second: string) {
    exists i, j :: 0 <= i < j < |s| && s[i].key == first && s[j].key == second
  }

  /** No operation reorders: a value put under a present key leaves every key in its place, a new key goes
      last, and deleting leaves the rest in their order. */
  lemma PutOrder<V>(s: seq<Slot<V>>, key: string, value: V)
    ensures var t := Put(s, key, value);
            && (forall i :: 0 <= i < |s| ==> t[i].key == s[i].key && (s[i].key != key ==> t[i] == s[i]))
            && (Has(s, key) ==> |t| == |s|)
            && (!Has(s, key) ==> |t| == |s| + 1 && t[|s|] == Slot(key, value))
  {
  }

  lemma DeleteOrder<V>(s: seq<Slot<V>>, key: string, first: string, second: string)
    requires Ahead(Delete(s, key), first, second)
    ensures Ahead(s, first, second)
  {
    var t, k := Delete(s, key), IndexOf(s, key);
    var i, j :| 0 <= i < j < |t| && t[i].key == first && t[j].key == second;
    var i', j' := if i < k then i else i + 1, if j < k then j else j + 1;
    assert k < |s| ==> s[i'] == t[i] && s[j'] == t[j];
  }

  lemma AheadFirst<V>(s: seq<Slot<V>>, first: string, second: string)
    requires s != []
    ensures Ahead(s, first, second) <==>
            Ahead(s[1..], first, second) || (s[0].key == first && exists slot <- s[1..] :: slot.key == second)
  {
    var rest := s[1..];
    if Ahead(s, first, second) {
      var i, j :| 0 <= i < j < |s| && s[i].key == first && s[j].key == second;
      assert s[j] == rest[j - 1] && (i > 0 ==> s[i] == rest[i - 1]);
    }
    if Ahead(rest, first, second) {
      var i, j :| 0 <= i < j < |rest| && rest[i].key == first && rest[j].key == second;
      assert s[i + 1] == rest[i] && s[j + 1] == rest[j];
    }
    if slot :| slot in rest && slot.key == second && s[0].key == first {
      var j :| 0 <= j < |rest| && rest[j] == slot;
      assert s[j + 1] == slot;
    }
  }

  lemma {:induction false} KeepOrder<V>(s: seq<Slot<V>>, doomed: Slot<V> -> bool, first: string, second: string)
    requires Ahead(Keep(s, doomed), first, second)
    ensures Ahead(s, first, second)
  {
    var rest := Keep(s[1..], doomed);
    assert s != [];
    hide Ahead;
    AheadFirst(s, first, second);
    KeepIn(s[1..], doomed);
    if !doomed(s[0]) {
      AheadFirst([s[0]] + rest, first, second);
      assert ([s[0]] + rest)[1..] == rest;
    }
    if Ahead(rest, first, second) {
      KeepOrder(s[1..], doomed, first, second);
    }
  }

  lemma {:induction false} KeepIn<V>(s: seq<Slot<V>>, doomed: Slot<V> -> bool)
    ensures |Keep(s, doomed)| <= |s|
    ensures forall slot <- Keep(s, doomed) :: slot in s && !doomed(slot)
    ensures forall slot <- s :: !doomed(slot) ==> slot in Keep(s, doomed)
  {
    if s != [] {
      assert s == [s[0]] + s[1..];
      KeepIn(s[1..], doomed);
    }
  }

  lemma {:induction false} KeepDistinct<V>(s: seq<Slot<V>>, doomed: Slot<V> -> bool)
    requires DistinctKeys(s)
    ensures DistinctKeys(Keep(s, doomed))
  {
    if s != [] {
      KeepDistinct(s[1..], doomed);
      KeepIn(s[1..], doomed);
      var rest := Keep(s[1..], doomed);
      forall slot <- rest ensures slot.key != s[0].key {
        var i :| 0 <= i < |s[1..]| && s[1..][i] == slot;
        assert s[i + 1].key != s[0].key;
      }
    }
  }

  lemma KeepGet<V>(s: seq<Slot<V>>, doomed: Slot<V> -> bool, key: string)
    requires DistinctKeys(s)
    ensures Get(Keep(s, doomed), key) ==
            match Get(s, key)
            case Some(value) => if doomed(Slot(key, value)) then None else Some(value)
            case None => None
  {
    KeepIn(s, doomed);
    KeepDistinct(s, doomed);
    var t := Keep(s, doomed);
    var i, j := IndexOf(s, key), IndexOf(t, key);
    if i < |s| {
      assert s[i] in s && s[i] == Slot(key, s[i].value);
    }
    if j < |t| {
      assert t[j] in t;
      var k :| 0 <= k < |s| && s[k] == t[j];
      assert k == i;
    }
    assert i < |s| && !doomed(s[i]) ==> s[i] in t;
    assert forall k :: 0 <= k < |t| && t[k].key == key ==> j < |t|;
  }
}
