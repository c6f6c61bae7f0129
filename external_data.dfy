/** Rows imported from outside datasets (SEC investment advisors, their Schedule A owners,
    New York City Council members): the dataset enum and the JSON payload a row keeps. */
module ExternalDataModel {
  import opened Wrappers
  import opened Strings

  // ---------------------------------------------------------------------------
  // Datasets

  /** DATASETS: each dataset's name with the integer the enum stores. */
  const Datasets: map<string, nat> :=
    map["reserved" := 0, "iapd_advisors" := 1, "iapd_schedule_a" := 2, "nycc" := 3]

  /** DATASET_NAMES: the names of DATASETS, in order, without "reserved". */
  const DatasetNames: seq<string> := ["iapd_advisors", "iapd_schedule_a", "nycc"]

  /** DATASETS_INVERTED: each stored integer with its dataset's name. */
  const DatasetsInverted: map<nat, string> :=
    map[0 := "reserved", 1 := "iapd_advisors", 2 := "iapd_schedule_a", 3 := "nycc"]

  /** The names are the keys of DATASETS other than "reserved", each listed once. */
  lemma DatasetNamesAreKeys()
    ensures forall name :: name in DatasetNames <==> name in Datasets && name != "reserved"
    ensures forall i, j :: 0 <= i < j < |DatasetNames| ==> DatasetNames[i] != DatasetNames[j]
  {
  }

  /** DATASETS_INVERTED undoes DATASETS and DATASETS undoes DATASETS_INVERTED. */
  lemma DatasetsInvertedRoundTrip()
    ensures forall name :: name in Datasets ==>
      Datasets[name] in DatasetsInverted && DatasetsInverted[Datasets[name]] == name
    ensures forall code :: code in DatasetsInverted ==>
      DatasetsInverted[code] in Datasets && Datasets[DatasetsInverted[code]] == code
  {
  }

  /** dataset?: whether the name, in any letter case, is a dataset other than "reserved";
      equivalently, whether it names a dataset with a non-zero code. */
  function IsDataset(x: string): (r: bool)
    ensures r <==> Downcase(x) in Datasets && Datasets[Downcase(x)] != 0
  {
    Downcase(x) in DatasetNames
  }

  /** The check does not depend on letter case. */
  lemma IsDatasetIgnoresCase(x: string)
    ensures IsDataset(Downcase(x)) == IsDataset(x)
  {
    DowncaseIdempotent(x);
  }

  datatype LittleSisError = LittleSisError(message: Option<string>)

  /** verify_dataset!: raises, without a message, on a name that is not a dataset. */
  function VerifyDataset(x: string): (r: Result<(), LittleSisError>)
    ensures r.Failure? <==> !IsDataset(x)
    ensures r.Failure? ==> r.error.message.None?
  {
    if IsDataset(x) then Success(()) else Failure(LittleSisError(None))
  }

  // ---------------------------------------------------------------------------
  // The JSON payload

  /** A value of the serialized `data` column; `JNull` is Ruby's nil. */
  datatype Json =
    | JNull
    | JBool(b: bool)
    | JNumber(n: int)
    | JString(s: string)
    | JArray(items: seq<Json>)
    | JObject(obj: Hash)

  /** A Ruby Hash with string keys: the keys in insertion order and the value of each. */
  datatype Hash = Hash(keys: seq<string>, values: map<string, Json>)

  ghost predicate Distinct(ks: seq<string>) {
    forall i, j :: 0 <= i < j < |ks| ==> ks[i] != ks[j]
  }

  /** A hash lists each of its keys once and nothing else. */
  ghost predicate WellFormed(h: Hash) {
    Distinct(h.keys) && (forall k :: k in h.keys <==> k in h.values)
  }

  lemma DistinctTail(ks: seq<string>)
    requires ks != [] && Distinct(ks)
    ensures ks[0] !in ks[1..] && Distinct(ks[1..])
  {
    var rest := ks[1..];
    forall j | 0 <= j < |rest| ensures rest[j] != ks[0] {
      assert rest[j] == ks[j + 1];
    }
    forall i, j | 0 <= i < j < |rest| ensures rest[i] != rest[j] {
      assert rest[i] == ks[i + 1] && rest[j] == ks[j + 1];
    }
  }

  /** Hash#store: a new key goes to the end; a present key keeps its place. */
  function Store(h: Hash, k: string, v: Json): (r: Hash)
    ensures r.values == h.values[k := v]
    ensures k in h.values ==> r.keys == h.keys
    ensures k !in h.values ==> r.keys == h.keys + [k]
  {
    if k in h.values then Hash(h.keys, h.values[k := v]) else Hash(h.keys + [k], h.values[k := v])
  }

  lemma StoreWellFormed(h: Hash, k: string, v: Json)
    requires WellFormed(h)
    ensures WellFormed(Store(h, k, v))
  {
    var r := Store(h, k, v);
    if k !in h.values {
      forall i, j | 0 <= i < j < |r.keys| ensures r.keys[i] != r.keys[j] {
        if j == |h.keys| {
          assert r.keys[i] == h.keys[i] && h.keys[i] in h.keys;
        }
      }
    }
  }

  /** The keys of `ks` that are not in `present`, in their order. */
  function Fresh(ks: seq<string>, present: set<string>): (r: seq<string>)
    ensures |r| <= |ks|
  {
    if ks == [] then []
    else if ks[0] in present then Fresh(ks[1..], present)
    else [ks[0]] + Fresh(ks[1..], present)
  }

  /** Exactly the keys of `ks` missing from `present` are fresh. */
  lemma {:induction false} FreshMembers(ks: seq<string>, present: set<string>)
    ensures forall k :: k in Fresh(ks, present) <==> k in ks && k !in present
  {
    if ks != [] {
      FreshMembers(ks[1..], present);
      assert ks == [ks[0]] + ks[1..];
    }
  }

  lemma {:induction false} FreshIgnoresAbsent(ks: seq<string>, present: set<string>, k: string)
    requires k !in ks
    ensures Fresh(ks, present + {k}) == Fresh(ks, present)
  {
    if ks != [] {
      assert ks[0] != k;
      assert k !in ks[1..] by {
        forall j | 0 <= j < |ks[1..]| ensures ks[1..][j] != k {
          assert ks[1..][j] == ks[j + 1];
        }
      }
      FreshIgnoresAbsent(ks[1..], present, k);
    }
  }

  lemma FreshNone(ks: seq<string>, present: set<string>)
    requires forall k :: k in ks ==> k in present
    ensures Fresh(ks, present) == []
  {
    if Fresh(ks, present) != [] {
      FreshMembers(ks, present);
      assert Fresh(ks, present)[0] in Fresh(ks, present);
    }
  }

  /** The map of `d` restricted to the keys `ks`. */
  function Restrict(d: map<string, Json>, ks: seq<string>): map<string, Json>
    requires forall k :: k in ks ==> k in d
  {
    map k | k in ks :: d[k]
  }

  /** Storing the entries of `d` under the keys `ks`, one after another, as Hash#merge
      does. */
  function StoreAll(h: Hash, ks: seq<string>, d: map<string, Json>): Hash
    requires forall k :: k in ks ==> k in d
    decreases |ks|
  {
    if ks == [] then h else StoreAll(Store(h, ks[0], d[ks[0]]), ks[1..], d)
  }

  /** Each key ends up with its entry of `d`; the other keys keep theirs. */
  lemma {:induction false} StoreAllValues(h: Hash, ks: seq<string>, d: map<string, Json>)
    requires forall k :: k in ks ==> k in d
    ensures StoreAll(h, ks, d).values == h.values + Restrict(d, ks)
    decreases |ks|
  {
    if ks != [] {
      var k, rest := ks[0], ks[1..];
      assert StoreAll(h, ks, d) == StoreAll(Store(h, k, d[k]), rest, d);
      assert StoreAll(h, ks, d).values == h.values[k := d[k]] + Restrict(d, rest) by {
        StoreAllValues(Store(h, k, d[k]), rest, d);
      }
      RestrictCons(h.values, d, ks);
    }
  }

  /** Storing the first key and then the restriction to the others is storing the
      restriction to all of them. */
  lemma RestrictCons(hv: map<string, Json>, d: map<string, Json>, ks: seq<string>)
    requires ks != [] && forall k :: k in ks ==> k in d
    ensures hv[ks[0] := d[ks[0]]] + Restrict(d, ks[1..]) == hv + Restrict(d, ks)
  {
    var k, rest := ks[0], ks[1..];
    var lhs := hv[k := d[k]] + Restrict(d, rest);
    var rhs := hv + Restrict(d, ks);
    assert forall x :: x in ks <==> x == k || x in rest by {
      assert ks == [k] + rest;
    }
    assert lhs.Keys == rhs.Keys;
    forall x | x in lhs ensures lhs[x] == rhs[x] {
    }
  }

  /** Storing distinct keys appends those the hash lacks, in their order. */
  lemma {:induction false} StoreAllKeys(h: Hash, ks: seq<string>, d: map<string, Json>)
    requires forall k :: k in ks ==> k in d
    requires Distinct(ks)
    ensures StoreAll(h, ks, d).keys == h.keys + Fresh(ks, h.values.Keys)
    decreases |ks|
  {
    if ks == [] {
      assert h.keys + [] == h.keys;
    } else {
      var k := ks[0];
      var rest := ks[1..];
      var h1 := Store(h, k, d[k]);
      DistinctTail(ks);
      StoreAllKeys(h1, rest, d);
      if k !in h.values {
        FreshIgnoresAbsent(rest, h.values.Keys, k);
        assert h1.values.Keys == h.values.Keys + {k};
        assert h1.keys + Fresh(rest, h1.values.Keys) == h.keys + ([k] + Fresh(rest, h.values.Keys));
      } else {
        assert h1.values.Keys == h.values.Keys;
      }
    }
  }

  /** Storing keeps the hash well formed. */
  lemma {:induction false} StoreAllWellFormed(h: Hash, ks: seq<string>, d: map<string, Json>)
    requires forall k :: k in ks ==> k in d
    requires WellFormed(h)
    ensures WellFormed(StoreAll(h, ks, d))
    decreases |ks|
  {
    if ks != [] {
      StoreWellFormed(h, ks[0], d[ks[0]]);
      StoreAllWellFormed(Store(h, ks[0], d[ks[0]]), ks[1..], d);
    }
  }

  /** Hash#merge: the receiver's entries with those of `d` stored over them. */
  function Merge(h: Hash, d: Hash): (r: Hash)
    requires WellFormed(d)
    ensures r.values == h.values + d.values
  {
    StoreAllValues(h, d.keys, d.values);
    assert Restrict(d.values, d.keys) == d.values;
    StoreAll(h, d.keys, d.values)
  }

  /** The merged hash keeps the receiver's keys in place and appends the new keys of `d`
      in `d`'s order; it is a well-formed hash. */
  lemma MergeKeys(h: Hash, d: Hash)
    requires WellFormed(h) && WellFormed(d)
    ensures Merge(h, d).keys == h.keys + Fresh(d.keys, h.values.Keys)
    ensures WellFormed(Merge(h, d))
  {
    StoreAllKeys(h, d.keys, d.values);
    StoreAllWellFormed(h, d.keys, d.values);
  }

  /** Merging the same hash a second time changes nothing. */
  lemma MergeIdempotent(h: Hash, d: Hash)
    requires WellFormed(h) && WellFormed(d)
    ensures Merge(Merge(h, d), d) == Merge(h, d)
  {
    var m := Merge(h, d);
    assert WellFormed(m) by {
      MergeKeys(h, d);
    }
    var m2 := Merge(m, d);
    assert m2.keys == m.keys by {
      MergeKeys(m, d);
      FreshNone(d.keys, m.values.Keys);
      assert m.keys + [] == m.keys;
    }
    assert m2.values == m.values by {
      assert m.values + d.values == m.values;
    }
  }

  // ---------------------------------------------------------------------------
  // The stored row

  const IncorrectlySerialized := "Incorrectly serialized data attribute"

  /** A row of an outside dataset: which dataset and its deserialized payload. */
  class ExternalData {
    var dataset: nat
    var data: Json

    constructor (dataset: nat, data: Json)
      ensures this.dataset == dataset && this.data == data
    {
      this.dataset := dataset;
      this.data := data;
    }

    /** merge_data: an empty payload becomes `d`, a Hash payload takes `d`'s entries over
        its own, and any other payload raises; on success the row itself is returned. */
    method MergeData(d: Hash) returns (r: Result<ExternalData, LittleSisError>)
      requires WellFormed(d)
      modifies this
      ensures dataset == old(dataset)
      ensures old(data).JNull? ==> data == JObject(d) && r == Success(this)
      ensures old(data).JObject? ==> data == JObject(Merge(old(data).obj, d)) && r == Success(this)
      ensures !old(data).JNull? && !old(data).JObject? ==>
        data == old(data) && r == Failure(LittleSisError(Some(IncorrectlySerialized)))
    {
      if data.JNull? {
        data := JObject(d);
      } else if data.JObject? {
        data := JObject(Merge(data.obj, d));
      } else {
        return Failure(LittleSisError(Some(IncorrectlySerialized)));
      }
      r := Success(this);
    }
  }

  /** Merging the same entries twice leaves the payload as merging them once. */
  method MergeDataTwice(row: ExternalData, d: Hash)
    requires WellFormed(d)
    requires row.data.JNull? || (row.data.JObject? && WellFormed(row.data.obj))
    modifies row
    ensures row.data.JObject? && row.data.obj.values == (if old(row.data).JNull? then d.values
      else old(row.data).obj.values + d.values)
  {
    var first := row.MergeData(d);
    var second := row.MergeData(d);
    if old(row.data).JObject? {
      MergeIdempotent(old(row.data).obj, d);
    }
  }
}
