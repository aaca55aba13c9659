/**
 * The relay's circuit table: an insertion-ordered in-memory Map mirrored in a database table, both
 * under the key "id_prevHop" (or "id" alone). Keys at rest are sealed under the master key.
 */
module CircuitStore {
  import opened OrderedMap
  import opened SymbolicCrypto
  import opened Text

  datatype Record = Record(
    circuitId: string, prevHop: Option<string>, nextHop: Option<string>, symmetricKey: Key, createdAt: int)

  /** A key encrypted for the disk: only the same master key opens it. */
  datatype SealedKey = SealedKey(master: nat, symmetricKey: Key)

  datatype Row = Row(
    circuitId: string, prevHop: Option<string>, nextHop: Option<string>, sealed: SealedKey, createdAt: int)

  /** An empty previous hop counts as none. */
  function Hop(prevHop: Option<string>): Option<string> {
    if prevHop == Some("") then None else prevHop
  }

  function KeyOf(circuitId: string, prevHop: Option<string>): string {
    match Hop(prevHop)
    case Some(hop) => circuitId + "_" + hop
    case None => circuitId
  }

  /** One identifier begins with the other followed by an underscore. */
  predicate Nested(id: string, id': string) {
    id + "_" <= id' || id' + "_" <= id
  }

  lemma KeyBegins(id: string, prev: Option<string>)
    ensures var key := KeyOf(id, prev);
            && id <= key && (key == id <==> Hop(prev) == None)
            && (Hop(prev).Some? ==> id + "_" <= key && key[|id| + 1..] == Hop(prev).value)
  {
  }

  /** Under one identifier the key tells the previous hops apart. */
  lemma HopsDiffer(id: string, prev: Option<string>, prev': Option<string>)
    ensures KeyOf(id, prev) == KeyOf(id, prev') <==>
            prev == prev' || ((prev == None || prev == Some("")) && (prev' == None || prev' == Some("")))
  {
    KeyBegins(id, prev);
    KeyBegins(id, prev');
  }

  lemma SharedKeyNests(id: string, prev: Option<string>, id': string, prev': Option<string>)
    requires |id| <= |id'| && id != id' && KeyOf(id, prev) == KeyOf(id', prev')
    ensures id + "_" <= id'
  {
    KeyBegins(id, prev);
    KeyBegins(id', prev');
    var key := KeyOf(id, prev);
    assert id == key[..|id|] && id' == key[..|id'|];
    assert |id| < |id'|;
    assert (id + "_") == key[..|id| + 1];
  }

  /** Two identifiers can share a key, and then with two real hops, if and only if they are nested.
      The hexadecimal ones generated here never are. */
  lemma KeysShare(id: string, id': string)
    requires id != id'
    ensures (exists prev, prev' :: KeyOf(id, prev) == KeyOf(id', prev')) <==> Nested(id, id')
    ensures Nested(id, id') ==>
              exists hop, hop' :: hop != "" && hop' != "" && KeyOf(id, Some(hop)) == KeyOf(id', Some(hop'))
  {
    if prev, prev' :| KeyOf(id, prev) == KeyOf(id', prev') {
      if |id| <= |id'| {
        SharedKeyNests(id, prev, id', prev');
      } else {
        SharedKeyNests(id', prev', id, prev);
      }
    }
    if id + "_" <= id' {
      NestedShare(id, id');
    } else if id' + "_" <= id {
      NestedShare(id', id);
    }
  }

  lemma NestedShare(id: string, longer: string)
    requires id + "_" <= longer
    ensures var hop := longer[|id| + 1..] + "_x"; hop != "" && KeyOf(id, Some(hop)) == KeyOf(longer, Some("x"))
  {
    var rest := longer[|id| + 1..];
    assert longer == id + "_" + rest;
    assert id + "_" + (rest + "_x") == id + "_" + rest + "_" + "x";
  }

  lemma PlainNeverNested(id: string, id': string)
    requires '_' !in id && '_' !in id'
    ensures !Nested(id, id')
  {
    UnderscoreInside(id, id');
    UnderscoreInside(id', id);
  }

  lemma UnderscoreInside(id: string, longer: string)
    ensures id + "_" <= longer ==> '_' in longer
  {
    if id + "_" <= longer {
      assert longer[|id|] == (id + "_")[|id|];
    }
  }

  function FirstOf(s: seq<Slot<Record>>, circuitId: string): (r: Option<Record>)
    ensures r.Some? ==> r.value.circuitId == circuitId
  {
    if s == [] then None
    else if s[0].value.circuitId == circuitId then Some(s[0].value)
    else FirstOf(s[1..], circuitId)
  }

  lemma {:induction false} FirstOfComplete(s: seq<Slot<Record>>, circuitId: string)
    ensures FirstOf(s, circuitId).None? <==> forall slot <- s :: slot.value.circuitId != circuitId
  {
    if s != [] {
      FirstOfComplete(s[1..], circuitId);
      assert s == [s[0]] + s[1..];
    }
  }

  /** The record of that circuit that entered first. */
  ghost predicate IsFirstOf(s: seq<Slot<Record>>, circuitId: string, record: Record) {
    exists i :: 0 <= i < |s| && s[i].value == record && record.circuitId == circuitId
                && forall j :: 0 <= j < i ==> s[j].value.circuitId != circuitId
  }

  lemma {:induction false} FirstOfFirst(s: seq<Slot<Record>>, circuitId: string)
    ensures FirstOf(s, circuitId).Some? ==> IsFirstOf(s, circuitId, FirstOf(s, circuitId).value)
  {
    if s != [] && s[0].value.circuitId != circuitId && FirstOf(s, circuitId).Some? {
      var rest := s[1..];
      FirstOfFirst(rest, circuitId);
      var record := FirstOf(s, circuitId).value;
      var i :| 0 <= i < |rest| && rest[i].value == record && record.circuitId == circuitId
               && forall j :: 0 <= j < i ==> rest[j].value.circuitId != circuitId;
      forall j | 0 <= j < i + 1 ensures s[j].value.circuitId != circuitId {
        assert j > 0 ==> s[j] == rest[j - 1];
      }
      assert s[i + 1].value == record;
    }
  }

  /** What the store answers from memory. */
  function Lookup(s: seq<Slot<Record>>, circuitId: string, prevHop: Option<string>): Option<Record> {
    if Hop(prevHop).Some? && Get(s, KeyOf(circuitId, prevHop)).Some?
    then Get(s, KeyOf(circuitId, prevHop))
    else FirstOf(s, circuitId)
  }

  // ---------------------------------------------------------------- what the history says

  datatype Op =
    | Save(record: Record)
    | Delete(circuitId: string, prevHop: Option<string>)
    | Expire(cutoff: int)

  /** The record a key should hold after a history of operations: the last one saved under it, unless
      deleted since, by key or with its whole circuit, or expired since. */
  function At(ops: seq<Op>, key: string): (r: Option<Record>)
    ensures r.Some? ==> KeyOf(r.value.circuitId, r.value.prevHop) == key
  {
    if ops == [] then None
    else
      var before := At(ops[..|ops| - 1], key);
      match ops[|ops| - 1]
      case Save(record) => if KeyOf(record.circuitId, record.prevHop) == key then Some(record) else before
      case Delete(id, hop) =>
        if before.Some? && (if Hop(hop).Some? then KeyOf(id, hop) == key else before.value.circuitId == id) then None
        else before
      case Expire(cutoff) => if before.Some? && before.value.createdAt < cutoff then None else before
  }

  /** The circuit a key's record belongs to. */
  function CircuitAt(ops: seq<Op>, key: string): Option<string> {
    match At(ops, key)
    case Some(record) => Some(record.circuitId)
    case None => None
  }

  predicate SamePair(id: string, prev: Option<string>, id': string, prev': Option<string>) {
    id == id' && Hop(prev) == Hop(prev')
  }

  /** The same for one pair of circuit and previous hop, without a word about keys. */
  function Current(ops: seq<Op>, id: string, prev: Option<string>): (r: Option<Record>)
    ensures r.Some? ==> SamePair(r.value.circuitId, r.value.prevHop, id, prev)
  {
    if ops == [] then None
    else
      var before := Current(ops[..|ops| - 1], id, prev);
      match ops[|ops| - 1]
      case Save(record) =>
        if SamePair(record.circuitId, record.prevHop, id, prev) then Some(record) else before
      case Delete(gone, hop) =>
        if gone == id && (Hop(hop) == None || Hop(hop) == Hop(prev)) then None else before
      case Expire(cutoff) =>
        if before.Some? && before.value.createdAt < cutoff then None else before
  }

  /** The operation is not about another circuit whose keys could be this one's. */
  predicate Apart(id: string, op: Op) {
    match op
    case Save(record) => record.circuitId == id || !Nested(id, record.circuitId)
    case Delete(gone, _) => gone == id || !Nested(id, gone)
    case Expire(_) => true
  }

  lemma PairsMatch(id: string, prev: Option<string>, id': string, prev': Option<string>)
    requires id' == id || !Nested(id, id')
    ensures KeyOf(id, prev) == KeyOf(id', prev') <==> SamePair(id, prev, id', prev')
  {
    if id == id' {
      HopsDiffer(id, prev, prev');
    } else {
      KeysShare(id, id');
    }
  }

  /** As long as no nested circuit interferes, each pair has the record of its own last save. */
  lemma {:induction false} PairHistory(ops: seq<Op>, id: string, prev: Option<string>)
    requires forall op <- ops :: Apart(id, op)
    ensures At(ops, KeyOf(id, prev)) == Current(ops, id, prev)
  {
    hide KeyOf, SamePair;
    if ops != [] {
      var last := ops[|ops| - 1];
      assert last in ops && Apart(id, last);
      PairHistory(ops[..|ops| - 1], id, prev);
      match last {
        case Save(record) =>
          PairsMatch(id, prev, record.circuitId, record.prevHop);
          SamePairTurns(id, prev, record.circuitId, record.prevHop);
        case Delete(gone, hop) =>
          PairsMatch(id, prev, gone, hop);
          SamePairTurns(id, prev, gone, hop);
          CurrentId(ops[..|ops| - 1], id, prev);
        case Expire(_) =>
      }
    }
  }

  lemma SamePairTurns(id: string, prev: Option<string>, id': string, prev': Option<string>)
    ensures SamePair(id, prev, id', prev') <==> SamePair(id', prev', id, prev)
    ensures SamePair(id, prev, id', prev') <==> id == id' && Hop(prev) == Hop(prev')
  {
  }

  lemma CurrentId(ops: seq<Op>, id: string, prev: Option<string>)
    ensures Current(ops, id, prev).Some? ==> Current(ops, id, prev).value.circuitId == id
  {
  }

  /** Two saves under one shared key: the later takes the earlier one's place. */
  lemma NestedSaveReplaces(first: Record, second: Record)
    requires first.circuitId != second.circuitId
    requires KeyOf(first.circuitId, first.prevHop) == KeyOf(second.circuitId, second.prevHop)
    ensures At([Save(first), Save(second)], KeyOf(first.circuitId, first.prevHop)) == Some(second)
    ensures Current([Save(first), Save(second)], first.circuitId, first.prevHop) == Some(first)
  {
    var ops := [Save(first), Save(second)];
    assert ops[..1] == [Save(first)] && ops[..1][..0] == [];
  }

  ghost predicate FaithfulTo(s: seq<Slot<Record>>, ops: seq<Op>) {
    forall key: string :: Get(s, key) == At(ops, key)
  }

  ghost predicate Keyed(s: seq<Slot<Record>>) {
    && DistinctKeys(s)
    && forall slot <- s :: slot.key == KeyOf(slot.value.circuitId, slot.value.prevHop)
  }

  lemma SavedFaithful(s: seq<Slot<Record>>, ops: seq<Op>, record: Record)
    requires Keyed(s) && FaithfulTo(s, ops)
    ensures var t := Put(s, KeyOf(record.circuitId, record.prevHop), record);
            Keyed(t) && FaithfulTo(t, ops + [Save(record)])
  {
    var name := KeyOf(record.circuitId, record.prevHop);
    var t := Put(s, name, record);
    PutDistinct(s, name, record);
    forall key: string ensures Get(t, key) == At(ops + [Save(record)], key) {
      assert (ops + [Save(record)])[..|ops|] == ops;
      assert Get(s, key) == At(ops, key);
      PutGet(s, name, record, key);
    }
  }

  predicate Doomed(op: Op, slot: Slot<Record>)
    requires !op.Save?
  {
    match op
    case Delete(id, hop) =>
      if Hop(hop).Some? then slot.key == KeyOf(id, hop) else slot.value.circuitId == id
    case Expire(cutoff) => slot.value.createdAt < cutoff
  }

  lemma DroppedFaithful(s: seq<Slot<Record>>, ops: seq<Op>, op: Op, doomed: Slot<Record> -> bool)
    requires Keyed(s) && FaithfulTo(s, ops) && !op.Save?
    requires forall slot :: doomed(slot) == Doomed(op, slot)
    ensures Keyed(Keep(s, doomed)) && FaithfulTo(Keep(s, doomed), ops + [op])
  {
    var t := Keep(s, doomed);
    KeepIn(s, doomed);
    KeepDistinct(s, doomed);
    forall key: string ensures Get(t, key) == At(ops + [op], key) {
      hide Keep, Get, KeyOf;
      assert Get(s, key) == At(ops, key);
      assert (ops + [op])[..|ops|] == ops;
      KeepGet(s, doomed, key);
    }
  }

  class CircuitDb {
    const circuitMasterKey: nat
    var memoryCircuits: seq<Slot<Record>>
    var table: map<string, Row>
    /** The operations so far. */
    ghost var ops: seq<Op>

    function RowOf(record: Record): Row {
      Row(record.circuitId, record.prevHop, record.nextHop,
          SealedKey(circuitMasterKey, record.symmetricKey), record.createdAt)
    }

    /** What cannot be opened is handed back as it was stored. */
    function Unseal(sealed: SealedKey): Key {
      if sealed.master == circuitMasterKey then sealed.symmetricKey else Unopened(sealed.master)
    }

    function RecordOf(row: Row): Record {
      Record(row.circuitId, row.prevHop, row.nextHop, Unseal(row.sealed), row.createdAt)
    }

    function FromTable(circuitKey: string): Option<Record>
      reads this
    {
      if circuitKey in table then Some(RecordOf(table[circuitKey])) else None
    }

    /** The row's columns are the record's fields, its key sealed under this store's master key. */
    ghost predicate Mirrors(row: Row, record: Record) {
      && row.circuitId == record.circuitId
      && row.prevHop == record.prevHop
      && row.nextHop == record.nextHop
      && row.createdAt == record.createdAt
      && row.sealed.master == circuitMasterKey
      && row.sealed.symmetricKey == record.symmetricKey
    }

    /** Memory and table hold the same keys with the same fields. */
    ghost predicate Mirrored()
      reads this
    {
      forall key: string ::
        match Get(memoryCircuits, key)
        case Some(record) => key in table && Mirrors(table[key], record)
        case None => key !in table
    }

    /** A row of the table, read back, is the record in memory; without its master key it gives no key. */
    lemma TableGivesRecord(key: string)
      requires Valid() && key in table
      ensures FromTable(key) == Get(memoryCircuits, key) == At(ops, key)
      ensures forall other: nat | other != circuitMasterKey ::
                Unseal(SealedKey(other, table[key].sealed.symmetricKey)) == Unopened(other)
    {
      hide Get, At, KeyOf;
      assert Get(memoryCircuits, key).Some? && Get(memoryCircuits, key) == At(ops, key);
      assert Mirrors(table[key], Get(memoryCircuits, key).value);
    }

    ghost predicate Valid()
      reads this
    {
      && Keyed(memoryCircuits)
      && Mirrored()
      && FaithfulTo(memoryCircuits, ops)
    }

    constructor (masterKey: nat)
      ensures Valid() && memoryCircuits == [] && table == map[] && ops == [] && circuitMasterKey == masterKey
    {
      circuitMasterKey, memoryCircuits, table, ops := masterKey, [], map[], [];
    }

    method SaveCircuit(record: Record)
      requires Valid()
      modifies this
      ensures Valid() && ops == old(ops) + [Save(record)]
      ensures memoryCircuits == Put(old(memoryCircuits), KeyOf(record.circuitId, record.prevHop), record)
      ensures table.Keys == old(table).Keys + {KeyOf(record.circuitId, record.prevHop)}
      ensures Mirrors(table[KeyOf(record.circuitId, record.prevHop)], record)
      ensures forall key <- old(table) | key != KeyOf(record.circuitId, record.prevHop) :: table[key] == old(table)[key]
    {
      var circuitKey := KeyOf(record.circuitId, record.prevHop);
      forall key: string
        ensures Get(Put(memoryCircuits, circuitKey, record), key)
             == if key == circuitKey then Some(record) else Get(memoryCircuits, key)
      {
        PutGet(memoryCircuits, circuitKey, record, key);
      }
      SavedFaithful(memoryCircuits, ops, record);
      memoryCircuits := Put(memoryCircuits, circuitKey, record);
      table := table[circuitKey := RowOf(record)];
      ops := ops + [Save(record)];
    }

    /** With a previous hop the record under that key, whatever other hops share the circuit; else, or
        when there is none, the first record of the circuit in insertion order. In step with the
        table, memory always answers first. */
    method GetCircuit(circuitId: string, prevHop: Option<string>) returns (r: Option<Record>)
      requires Valid()
      ensures r == Lookup(memoryCircuits, circuitId, prevHop)
      ensures var direct := if Hop(prevHop).Some? then At(ops, KeyOf(circuitId, prevHop)) else None;
              && (direct.Some? ==> r == direct)
              && (direct.None? && r.Some? ==> IsFirstOf(memoryCircuits, circuitId, r.value))
              && (r.None? <==> direct.None? && forall key :: CircuitAt(ops, key) != Some(circuitId))
    {
      LookupHistory(circuitId, prevHop);
      FirstOfFirst(memoryCircuits, circuitId);
      hide IsFirstOf, FaithfulTo, At, KeyOf, Get, FirstOf, CircuitAt;
      var circuitKey := KeyOf(circuitId, prevHop);
      if Hop(prevHop).Some? {
        if Get(memoryCircuits, circuitKey).Some? {
          return Get(memoryCircuits, circuitKey);
        }
        if FromTable(circuitKey).Some? {
          return FromTable(circuitKey);
        }
      }
      r := FirstOf(memoryCircuits, circuitId);
      if r.None? {
        var row := NewestRow(circuitId);
        NoRows(circuitId);
        r := match row case Some(found) => Some(RecordOf(found)) case None => None;
      }
    }

    lemma LookupHistory(circuitId: string, prevHop: Option<string>)
      requires Valid()
      ensures var r := Lookup(memoryCircuits, circuitId, prevHop);
              var direct := if Hop(prevHop).Some? then At(ops, KeyOf(circuitId, prevHop)) else None;
              && (direct.Some? ==> r == direct)
              && (direct.None? ==> r == FirstOf(memoryCircuits, circuitId))
              && (r.None? <==> direct.None? && forall key :: CircuitAt(ops, key) != Some(circuitId))
      ensures Get(memoryCircuits, KeyOf(circuitId, prevHop)) == At(ops, KeyOf(circuitId, prevHop))
    {
      FirstOfComplete(memoryCircuits, circuitId);
      if key :| CircuitAt(ops, key) == Some(circuitId) {
        assert Get(memoryCircuits, key) == At(ops, key);
        assert memoryCircuits[IndexOf(memoryCircuits, key)] in memoryCircuits;
      }
      if slot :| slot in memoryCircuits && slot.value.circuitId == circuitId {
        SlotGet(memoryCircuits, slot);
        assert CircuitAt(ops, slot.key) == Some(circuitId);
      }
    }

    lemma NoRows(circuitId: string)
      requires Valid() && FirstOf(memoryCircuits, circuitId) == None
      ensures forall key <- table :: table[key].circuitId != circuitId
    {
      forall key <- table ensures table[key].circuitId != circuitId {
        assert Get(memoryCircuits, key).Some?;
        var slot := memoryCircuits[IndexOf(memoryCircuits, key)];
        FirstOfComplete(memoryCircuits, circuitId);
        assert slot in memoryCircuits;
      }
    }

    /** Looks for the circuit's row with the latest creation time. */
    method NewestRow(circuitId: string) returns (r: Option<Row>)
      ensures r.None? <==> forall key <- table :: table[key].circuitId != circuitId
      ensures r.Some? ==> (exists key <- table :: table[key] == r.value) && r.value.circuitId == circuitId
      ensures r.Some? ==> forall key <- table :: table[key].circuitId == circuitId ==> table[key].createdAt <= r.value.createdAt
    {
      var keys := table.Keys;
      r := None;
      while keys != {}
        invariant keys <= table.Keys
        invariant r.None? ==> forall key <- table.Keys - keys :: table[key].circuitId != circuitId
        invariant r.Some? ==> (exists key <- table :: table[key] == r.value) && r.value.circuitId == circuitId
        invariant r.Some? ==> forall key <- table.Keys - keys :: table[key].circuitId == circuitId ==> table[key].createdAt <= r.value.createdAt
        decreases keys
      {
        var key :| key in keys;
        keys := keys - {key};
        if table[key].circuitId == circuitId && (r.None? || r.value.createdAt < table[key].createdAt) {
          r := Some(table[key]);
        }
      }
    }

    /** Dropping the same entries on both sides keeps memory and table in step. */
    twostate lemma StillMirrored(doomed: Slot<Record> -> bool)
      requires old(Valid())
      requires memoryCircuits == Keep(old(memoryCircuits), doomed)
      requires table.Keys <= old(table).Keys && forall key <- table :: table[key] == old(table)[key]
      requires forall slot <- old(memoryCircuits) :: slot.key in table <==> !doomed(slot)
      ensures Mirrored()
    {
      KeepIn(old(memoryCircuits), doomed);
      KeepDistinct(old(memoryCircuits), doomed);
      forall key: string
        ensures match Get(memoryCircuits, key)
                case Some(record) => key in table && Mirrors(table[key], record)
                case None => key !in table
      {
        KeepGet(old(memoryCircuits), doomed, key);
        assert Get(old(memoryCircuits), key).Some? ==>
            old(memoryCircuits)[IndexOf(old(memoryCircuits), key)] in old(memoryCircuits);
      }
    }

    method DeleteCircuit(circuitId: string, prevHop: Option<string>)
      requires Valid()
      modifies this
      ensures Valid() && ops == old(ops) + [Delete(circuitId, prevHop)]
    {
      hide At, FaithfulTo, Get, Keep;
      ghost var op := Delete(circuitId, prevHop);
      var circuitKey := KeyOf(circuitId, prevHop);
      var doomed: Slot<Record> -> bool :=
        if Hop(prevHop).Some? then (s: Slot<Record>) => s.key == circuitKey
        else (s: Slot<Record>) => s.value.circuitId == circuitId;
      DroppedFaithful(memoryCircuits, ops, op, doomed);
      memoryCircuits := DropWhere(memoryCircuits, doomed);
      if Hop(prevHop).Some? {
        table := table - {circuitKey};
      } else {
        table := map key | key in table && table[key].circuitId != circuitId :: table[key];
      }
      forall slot <- old(memoryCircuits) ensures slot.key in table <==> !doomed(slot) {
        SlotGet(old(memoryCircuits), slot);
      }
      StillMirrored(doomed);
      ops := ops + [op];
    }

    method DeleteExpiredCircuits(maxAgeMs: int, now: int)
      requires Valid()
      modifies this
      ensures Valid() && ops == old(ops) + [Expire(now - maxAgeMs)]
    {
      hide At, FaithfulTo, Get, Keep;
      var cutoff := now - maxAgeMs;
      var doomed := (s: Slot<Record>) => s.value.createdAt < cutoff;
      DroppedFaithful(memoryCircuits, ops, Expire(cutoff), doomed);
      memoryCircuits := DropWhere(memoryCircuits, doomed);
      table := map key | key in table && table[key].createdAt >= cutoff :: table[key];
      forall slot <- old(memoryCircuits) ensures slot.key in table <==> !doomed(slot) {
        SlotGet(old(memoryCircuits), slot);
      }
      StillMirrored(doomed);
      ops := ops + [Expire(cutoff)];
    }
  }
}
