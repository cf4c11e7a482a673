/**
 * The device collection of the dictionary-based variants and the operations
 * that change it in place: the VLAN manager's add and remove, the service
 * add and remove handlers, and the confirmed delete. The report's counting
 * loops are methods over the collection that change nothing.
 */
module Inventory {
  import opened Wrappers
  import opened Text
  import opened Catalog
  import opened Validators
  import opened Records
  import opened Network

  // ---------------------------------------------------------------------------
  // Counting (the report's per-type and per-layer loops)
  // ---------------------------------------------------------------------------

  /** How many of `keys` equal `k`. */
  function Occurrences<K(==)>(keys: seq<K>, k: K): nat
  {
    if keys == [] then 0
    else Occurrences(keys[..|keys| - 1], k) + (if keys[|keys| - 1] == k then 1 else 0)
  }

  /** The position of `k` in an association list, as a dictionary lookup finds it. */
  function KeyIndex<K(==)>(counts: seq<(K, nat)>, k: K): (r: Option<nat>)
    ensures r.Some? ==> r.value < |counts| && counts[r.value].0 == k
    ensures r.None? ==> forall j :: 0 <= j < |counts| ==> counts[j].0 != k
  {
    if counts == [] then None
    else if counts[|counts| - 1].0 == k then Some(|counts| - 1)
    else KeyIndex(counts[..|counts| - 1], k)
  }

  predicate DistinctKeys<K(==)>(counts: seq<(K, nat)>) {
    forall i, j :: 0 <= i < j < |counts| ==> counts[i].0 != counts[j].0
  }

  function SumCounts<K>(counts: seq<(K, nat)>): nat {
    if counts == [] then 0 else SumCounts(counts[..|counts| - 1]) + counts[|counts| - 1].1
  }

  lemma {:induction false} SumCountsBump<K>(counts: seq<(K, nat)>, j: nat)
    requires j < |counts|
    ensures SumCounts(counts[j := (counts[j].0, counts[j].1 + 1)]) == SumCounts(counts) + 1
    decreases |counts|
  {
    var bumped := counts[j := (counts[j].0, counts[j].1 + 1)];
    var n := |counts| - 1;
    assert bumped[..n] == if j == n then counts[..n] else counts[..n][j := (counts[j].0, counts[j].1 + 1)];
    if j < n {
      SumCountsBump(counts[..n], j);
    }
  }

  lemma SumCountsAppend<K>(counts: seq<(K, nat)>, entry: (K, nat))
    ensures SumCounts(counts + [entry]) == SumCounts(counts) + entry.1
  {
    assert (counts + [entry])[..|counts|] == counts;
  }

  lemma {:induction false} OccurrencesAbsent<K>(keys: seq<K>, k: K)
    requires k !in keys
    ensures Occurrences(keys, k) == 0
  {
    if keys != [] {
      assert forall x :: x in keys[..|keys| - 1] ==> x in keys;
      OccurrencesAbsent(keys[..|keys| - 1], k);
    }
  }

  /**
   * `counts[key] = counts.get(key, 0) + 1` for each key in turn, with the
   * dictionary as an association list in insertion order. Every key appears
   * once, with its number of occurrences, and the counts add up to the number of keys.
   */
  method Tally<K(==)>(keys: seq<K>) returns (counts: seq<(K, nat)>)
    ensures DistinctKeys(counts)
    ensures forall k :: KeyIndex(counts, k).Some? <==> k in keys
    ensures forall j :: 0 <= j < |counts| ==> counts[j].1 == Occurrences(keys, counts[j].0) && counts[j].1 > 0
    ensures SumCounts(counts) == |keys|
  {
    counts := [];
    var i := 0;
    while i < |keys|
      invariant 0 <= i <= |keys|
      invariant DistinctKeys(counts)
      invariant forall k :: KeyIndex(counts, k).Some? <==> k in keys[..i]
      invariant forall j :: 0 <= j < |counts| ==> counts[j].1 == Occurrences(keys[..i], counts[j].0) && counts[j].1 > 0
      invariant SumCounts(counts) == i
    {
      var k := keys[i];
      assert keys[..i + 1][..i] == keys[..i];
      assert forall x :: x in keys[..i + 1] <==> x in keys[..i] || x == k;
      ghost var prev := counts;
      match KeyIndex(counts, k) {
      case Some(j) =>
        SumCountsBump(counts, j);
        counts := counts[j := (k, counts[j].1 + 1)];
        assert forall m :: 0 <= m < |counts| ==> counts[m].0 == prev[m].0;
        forall x ensures KeyIndex(counts, x).Some? <==> x in keys[..i + 1] {
          if KeyIndex(prev, x).Some? {
            assert counts[KeyIndex(prev, x).value].0 == x;
          }
          if KeyIndex(counts, x).Some? {
            assert prev[KeyIndex(counts, x).value].0 == x;
          }
        }
      case None =>
        OccurrencesAbsent(keys[..i], k);
        SumCountsAppend(counts, (k, 1));
        counts := counts + [(k, 1)];
        forall x ensures KeyIndex(counts, x).Some? <==> x in keys[..i + 1] {
          if KeyIndex(prev, x).Some? {
            assert counts[KeyIndex(prev, x).value].0 == x;
          }
          if KeyIndex(counts, x).Some? && x != k {
            assert prev[KeyIndex(counts, x).value].0 == x;
          }
        }
      }
      i := i + 1;
    }
    assert keys[..i] == keys;
  }

  /** The per-type loop's keys: the `TIPO` of each record, in order (the builder always stores one). */
  function TypeKeys(devices: seq<Device>): (r: seq<string>)
    ensures |r| == |devices| && forall i :: 0 <= i < |r| ==> r[i] == devices[i].kind
  {
    seq(|devices|, i requires 0 <= i < |devices| => devices[i].kind)
  }

  /**
   * The per-type counts of the report: each type that occurs once, with the
   * number of records of that type, and the counts add up to the number of records.
   */
  method TypeCounts(devices: seq<Device>) returns (counts: seq<(string, nat)>)
    ensures DistinctKeys(counts)
    ensures forall k :: KeyIndex(counts, k).Some? <==> exists i :: 0 <= i < |devices| && devices[i].kind == k
    ensures forall j :: 0 <= j < |counts| ==> counts[j].1 == Occurrences(TypeKeys(devices), counts[j].0) > 0
    ensures SumCounts(counts) == |devices|
  {
    var keys := TypeKeys(devices);
    counts := Tally(keys);
    forall k ensures k in keys <==> exists i :: 0 <= i < |devices| && devices[i].kind == k {
      if k in keys {
        var i :| 0 <= i < |keys| && keys[i] == k;
        assert devices[i].kind == k;
      }
    }
  }

  /**
   * The per-layer loop's key as written: `d.get("CAPA", missing)`. A record
   * whose `CAPA` holds `None` gives the key `None`, on which the report's
   * `capa.upper()` raises.
   */
  function LayerKeyAsWritten(d: Device, missing: string): (r: Option<string>)
    ensures r.None? <==> d.layer == Null
    ensures d.layer == Absent ==> r == Some(missing)
    ensures d.layer.Str? ==> r == Some(d.layer.value)
  {
    match d.layer
    case Absent => Some(missing)
    case Null => None
    case Str(s) => Some(s)
  }

  /** The heading `capa.upper()` of a layer key; `None` where that call raises. */
  function LayerHeading(key: Option<string>): (r: Option<string>)
    ensures r.Some? <==> key.Some?
    ensures r.Some? ==> |r.value| == |key.value|
  {
    if key.Some? then Some(Upper(key.value)) else None
  }

  /**
   * Saving a network edit that leaves the layer empty stores `CAPA = None`,
   * and the report then has no heading for that record.
   */
  lemma EditedLayerBreaksReport(w: Device, v: NetVars, missing: string)
    requires v.layer.None?
    ensures LayerHeading(LayerKeyAsWritten(ApplyNet(w, v), missing)).None?
  {
  }

  /** The per-layer key as intended: the stored layer, or `missing` when there is none. */
  function LayerKey(d: Device, missing: string): (r: string)
    ensures Get(d.layer).Some? ==> r == Get(d.layer).value
    ensures Get(d.layer).None? ==> r == missing
  {
    if d.layer.Str? then d.layer.value else missing
  }

  function LayerKeys(devices: seq<Device>, missing: string): (r: seq<string>)
    ensures |r| == |devices| && forall i :: 0 <= i < |r| ==> r[i] == LayerKey(devices[i], missing)
  {
    seq(|devices|, i requires 0 <= i < |devices| => LayerKey(devices[i], missing))
  }

  /** The records with no layer value, counted directly. */
  function NoLayerCount(devices: seq<Device>): nat {
    if devices == [] then 0
    else NoLayerCount(devices[..|devices| - 1]) + (if Get(devices[|devices| - 1].layer).None? then 1 else 0)
  }

  /**
   * When no stored layer is spelt like the default label, the records filed
   * under that label are exactly the records without a layer.
   */
  lemma {:induction false} MissingLayerCount(devices: seq<Device>, missing: string)
    requires forall i :: 0 <= i < |devices| ==> Get(devices[i].layer) != Some(missing)
    ensures Occurrences(LayerKeys(devices, missing), missing) == NoLayerCount(devices)
  {
    if devices != [] {
      var n := |devices| - 1;
      assert LayerKeys(devices, missing)[..n] == LayerKeys(devices[..n], missing);
      MissingLayerCount(devices[..n], missing);
    }
  }

  /**
   * The per-layer counts as intended, with every record lacking a layer filed
   * under `missing`: every layer key once, with its number of records, summing
   * to the number of records.
   */
  method LayerCounts(devices: seq<Device>, missing: string) returns (counts: seq<(string, nat)>)
    ensures DistinctKeys(counts)
    ensures forall k :: KeyIndex(counts, k).Some? <==> exists i :: 0 <= i < |devices| && LayerKey(devices[i], missing) == k
    ensures forall j :: 0 <= j < |counts| ==> counts[j].1 == Occurrences(LayerKeys(devices, missing), counts[j].0) > 0
    ensures SumCounts(counts) == |devices|
  {
    var keys := LayerKeys(devices, missing);
    counts := Tally(keys);
    forall k ensures k in keys <==> exists i :: 0 <= i < |devices| && LayerKey(devices[i], missing) == k {
      if k in keys {
        var i :| 0 <= i < |keys| && keys[i] == k;
        assert LayerKey(devices[i], missing) == k;
      }
    }
  }

  /** The loop's keys as written; they agree with the intended keys on every record whose `CAPA` is not `None`. */
  function LayerKeysAsWritten(devices: seq<Device>, missing: string): (r: seq<Option<string>>)
    ensures |r| == |devices|
    ensures forall i :: 0 <= i < |r| ==> r[i] == LayerKeyAsWritten(devices[i], missing)
    ensures forall i :: 0 <= i < |r| ==> (r[i] == Some(LayerKey(devices[i], missing)) <==> devices[i].layer != Null)
  {
    seq(|devices|, i requires 0 <= i < |devices| => LayerKeyAsWritten(devices[i], missing))
  }

  /**
   * The per-layer counts as the report's loop builds them, keyed by
   * `d.get("CAPA", missing)`: a record whose `CAPA` holds `None` is counted
   * under the key `None`. Every key once, with its number of records, summing
   * to the number of records.
   */
  method LayerCountsAsWritten(devices: seq<Device>, missing: string) returns (counts: seq<(Option<string>, nat)>)
    ensures DistinctKeys(counts)
    ensures forall k :: KeyIndex(counts, k).Some? <==> exists i :: 0 <= i < |devices| && LayerKeyAsWritten(devices[i], missing) == k
    ensures forall j :: 0 <= j < |counts| ==> counts[j].1 == Occurrences(LayerKeysAsWritten(devices, missing), counts[j].0) > 0
    ensures SumCounts(counts) == |devices|
    ensures (exists i :: 0 <= i < |devices| && devices[i].layer == Null) <==> KeyIndex(counts, None).Some?
  {
    var keys := LayerKeysAsWritten(devices, missing);
    counts := Tally(keys);
    forall k ensures k in keys <==> exists i :: 0 <= i < |devices| && LayerKeyAsWritten(devices[i], missing) == k {
      if k in keys {
        var i :| 0 <= i < |keys| && keys[i] == k;
        assert LayerKeyAsWritten(devices[i], missing) == k;
      }
    }
  }

  // ---------------------------------------------------------------------------
  // The delete confirmation
  // ---------------------------------------------------------------------------

  datatype Confirmation = Confirmed | Declined | Unclear

  /** `input().strip().upper()` compared with 'S' and then 'N'. */
  function ConfirmationOf(answer: string): (r: Confirmation)
  {
    var t := Upper(Strip(answer));
    if t == "S" then Confirmed else if t == "N" then Declined else Unclear
  }

  lemma UpperSingle(t: string, c: char)
    requires IsUpper(c)
    ensures Upper(t) == [c] <==> t == [c] || t == [LowerChar(c)]
  {
    if Upper(t) == [c] {
      assert UpperChar(t[0]) == c;
    }
    if t == [LowerChar(c)] {
      assert Upper(t)[0] == c;
    }
  }

  /** The delete is confirmed by exactly the answers `S` and `s`, declined by `N` and `n`, padded or not. */
  lemma ConfirmationIff(answer: string)
    ensures ConfirmationOf(answer) == Confirmed <==> Strip(answer) == "S" || Strip(answer) == "s"
    ensures ConfirmationOf(answer) == Declined <==> Strip(answer) == "N" || Strip(answer) == "n"
  {
    UpperSingle(Strip(answer), 'S');
    UpperSingle(Strip(answer), 'N');
  }

  // ---------------------------------------------------------------------------
  // The collection
  // ---------------------------------------------------------------------------

  /** Every record's VLAN list is sorted by id and holds each id once. */
  predicate VlansOk(devices: seq<Device>) {
    forall i :: 0 <= i < |devices| ==> SortedById(devices[i].vlans) && UniqueIds(devices[i].vlans)
  }

  /** No two records have names equal after `.lower()`. */
  predicate DistinctNames(devices: seq<Device>) {
    forall i, j :: 0 <= i < j < |devices| ==> Lower(devices[i].name) != Lower(devices[j].name)
  }

  /** Popping a record keeps the others in order, so both invariants survive. */
  lemma {:induction false} RemoveDeviceKeeps(devices: seq<Device>, index: nat)
    requires index < |devices|
    ensures var rest := devices[..index] + devices[index + 1..];
            |rest| == |devices| - 1 &&
            (forall i :: 0 <= i < |rest| ==> rest[i] == devices[if i < index then i else i + 1]) &&
            (VlansOk(devices) ==> VlansOk(rest)) &&
            (DistinctNames(devices) ==> DistinctNames(rest))
  {
    var rest := devices[..index] + devices[index + 1..];
    forall i | 0 <= i < |rest| ensures rest[i] == devices[if i < index then i else i + 1] {
    }
  }

  /** Replacing one record keeps the invariants when the new record keeps them itself. */
  lemma ReplaceDeviceKeeps(devices: seq<Device>, index: nat, e: Device)
    requires index < |devices|
    ensures VlansOk(devices) && SortedById(e.vlans) && UniqueIds(e.vlans) ==> VlansOk(devices[index := e])
    ensures DistinctNames(devices) && Lower(e.name) == Lower(devices[index].name) ==> DistinctNames(devices[index := e])
  {
  }

  /**
   * `dispositivos_dicts`: the list of records the managers modify in place.
   * Each method is one pass of a manager after its record has been selected.
   */
  class DeviceList {
    var devices: seq<Device>

    constructor (initial: seq<Device>)
      ensures devices == initial
    {
      devices := initial;
    }

    /**
     * Option "Añadir" of the VLAN manager: the entry is built from the two
     * answers against the record's current list; a duplicate id or a bad
     * answer leaves everything as it was, otherwise the entry is appended and
     * the list stored sorted by id.
     */
    method AddVlan(index: nat, rawId: string, rawName: string) returns (r: Result<Vlan, VlanAddError>)
      requires index < |devices|
      modifies this
      ensures r == VlanEntry(old(devices[index].vlans), rawId, rawName)
      ensures r.Ok? ==> devices == old(devices)[index := old(devices[index]).(vlans := AppendSorted(old(devices[index].vlans), r.value))]
      ensures r.Err? ==> devices == old(devices)
      ensures old(VlansOk(devices)) ==> VlansOk(devices)
    {
      var d := devices[index];
      r := VlanEntry(d.vlans, rawId, rawName);
      if r.Ok? {
        var e := d.(vlans := AppendSorted(d.vlans, r.value));
        if VlansOk(devices) {
          VlanEntryId(d.vlans, rawId, rawName);
          AppendSortedInserts(d.vlans, r.value);
          ReplaceDeviceKeeps(devices, index, e);
        }
        devices := devices[index := e];
      }
    }

    /** Option "Eliminar": pop the entry at the chosen position and store the rest. */
    method RemoveVlan(index: nat, pos: nat) returns (removed: Vlan)
      requires index < |devices| && pos < |devices[index].vlans|
      modifies this
      ensures removed == old(devices[index].vlans[pos])
      ensures devices == old(devices)[index := old(devices[index]).(vlans := RemoveAt(old(devices[index].vlans), pos))]
      ensures multiset(devices[index].vlans) == multiset(old(devices[index].vlans)) - multiset{removed}
      ensures old(VlansOk(devices)) ==> VlansOk(devices)
    {
      var d := devices[index];
      removed := d.vlans[pos];
      RemoveAtMultiset(d.vlans, pos);
      RemoveAtKeeps(d.vlans, pos);
      var e := d.(vlans := RemoveAt(d.vlans, pos));
      ReplaceDeviceKeeps(devices, index, e);
      devices := devices[index := e];
    }

    /**
     * `agregar_servicio_dispositivo` once a label is chosen: the stored string
     * is parsed, the label appended and the whole stored again de-duplicated and sorted.
     */
    method AddService(index: nat, svc: string)
      requires index < |devices|
      requires svc in ServiceLabels
      modifies this
      ensures devices == old(devices)[index := old(devices[index]).(services := AddServiceField(ParseServices(old(devices[index].services)), svc))]
      ensures VlansOk(old(devices)) ==> VlansOk(devices)
      ensures DistinctNames(old(devices)) ==> DistinctNames(devices)
    {
      var d := devices[index];
      var e := d.(services := AddServiceField(ParseServices(d.services), svc));
      ReplaceDeviceKeeps(devices, index, e);
      devices := devices[index := e];
    }

    /**
     * `eliminar_servicio_dispositivo` once a token is chosen: the first copy of
     * the token is removed when present and the rest stored, or "Ninguno".
     */
    method RemoveService(index: nat, x: string) returns (removed: bool)
      requires index < |devices|
      modifies this
      ensures removed <==> x in ParseServices(old(devices[index].services))
      ensures removed ==> devices == old(devices)[index := old(devices[index]).(services := RemoveServiceField(ParseServices(old(devices[index].services)), x).value)]
      ensures !removed ==> devices == old(devices)
      ensures VlansOk(old(devices)) ==> VlansOk(devices)
      ensures DistinctNames(old(devices)) ==> DistinctNames(devices)
    {
      var d := devices[index];
      var field := RemoveServiceField(ParseServices(d.services), x);
      removed := field.Some?;
      if removed {
        var e := d.(services := field.value);
        ReplaceDeviceKeeps(devices, index, e);
        devices := devices[index := e];
      }
    }

    /**
     * `eliminar_dispositivo` once a record is selected: 'S' pops it, keeping
     * the others in order; any other answer changes nothing.
     */
    method Delete(index: nat, answer: string) returns (c: Confirmation)
      requires index < |devices|
      modifies this
      ensures c == ConfirmationOf(answer)
      ensures c == Confirmed ==> devices == old(devices)[..index] + old(devices)[index + 1..]
      ensures c != Confirmed ==> devices == old(devices)
      ensures VlansOk(old(devices)) ==> VlansOk(devices)
      ensures DistinctNames(old(devices)) ==> DistinctNames(devices)
    {
      c := ConfirmationOf(answer);
      if c == Confirmed {
        RemoveDeviceKeeps(devices, index);
        devices := devices[..index] + devices[index + 1..];
      }
    }
  }
}
