/** The pure helpers of the client-side `utility` object: persistent-object operations over
    JavaScript values, ranges, date and selector checks, and the relationship form table. */
module Utility {
  import opened Wrappers
  import opened Strings

  // ---------------------------------------------------------------------------
  // JavaScript values

  /** The JavaScript values the helpers see. Numbers are integers, and objects are plain
      records of own enumerable string-keyed properties. */
  datatype Value =
    | Undefined
    | Null
    | Bool(b: bool)
    | Num(n: int)
    | Str(s: string)
    | Obj(fields: map<string, Value>)

  datatype JsError = TypeError | RangeError | Thrown(message: string)

  /** Boolean(v): undefined and null are falsy and every object is truthy. */
  function Truthy(v: Value): (r: bool)
    ensures v.Undefined? || v.Null? ==> !r
    ensures v.Obj? ==> r
  {
    match v
    case Undefined => false
    case Null => false
    case Bool(b) => b
    case Num(n) => n != 0
    case Str(s) => s != []
    case Obj(_) => true
  }

  /** String(v), which is also how a value becomes a property key. A string is its own
      rendering, and a number's decimal rendering reads back as the number. */
  function ToString(v: Value): (r: string)
    ensures v.Str? ==> r == v.s
    ensures v.Num? ==> ToI(r) == v.n
  {
    match v
    case Undefined => "undefined"
    case Null => "null"
    case Bool(b) => if b then "true" else "false"
    case Num(n) => ToIOfIntToString(n); IntToString(n)
    case Str(s) => s
    case Obj(_) => "[object Object]"
  }

  /** utility.exists: neither undefined nor null. Every truthy value exists, and the only
      values that do not exist are the two falsy ones undefined and null. */
  function Exists(v: Value): (r: bool)
    ensures Truthy(v) ==> r
    ensures !r <==> v.Undefined? || v.Null?
  {
    v != Undefined && v != Null
  }

  lemma NatToStringInjective()
    ensures forall i: nat, j: nat :: NatToString(i) == NatToString(j) ==> i == j
  {
    forall i: nat, j: nat | NatToString(i) == NatToString(j) ensures i == j {
      NatToStringValue(i);
      NatToStringValue(j);
    }
  }

  /** The own enumerable properties of a string primitive: "0", "1", ... holding its
      one-character substrings. */
  function StringIndexCopy(s: string): map<string, Value>
  {
    NatToStringInjective();
    map i | 0 <= i < |s| :: NatToString(i) := Str([s[i]])
  }

  /** Index i of a string is copied under the key String(i), and nothing else is. */
  lemma StringIndexCopyKeys(s: string)
    ensures var r := StringIndexCopy(s);
      (forall i :: 0 <= i < |s| ==> NatToString(i) in r && r[NatToString(i)] == Str([s[i]])) &&
      (forall k :: k in r ==> exists i :: 0 <= i < |s| && k == NatToString(i))
  {
    NatToStringInjective();
  }

  /** Object.assign({}, v): the own enumerable properties of `v`; none for null, undefined,
      booleans and numbers. */
  function AssignCopy(v: Value): map<string, Value> {
    match v
    case Obj(m) => m
    case Str(s) => StringIndexCopy(s)
    case _ => map[]
  }

  // ---------------------------------------------------------------------------
  // Reading and writing paths

  /** utility.get: the own property `key` of an object; undefined for a missing key and for
      anything that is not an object. */
  function Get(o: Value, key: string): (r: Value)
    ensures !o.Obj? ==> r == Undefined
    ensures o.Obj? && key !in o.fields ==> r == Undefined
    ensures o.Obj? && key in o.fields ==> r == o.fields[key]
  {
    if o.Obj? && key in o.fields then o.fields[key] else Undefined
  }

  /** utility.getIn: `get` folded along the keys from the left. */
  function GetIn(o: Value, keys: seq<string>): (r: Value)
    ensures keys == [] ==> r == o
    ensures |keys| == 1 ==> r == Get(o, keys[0])
    ensures keys != [] && !o.Obj? ==> r == Undefined
    decreases |keys|
  {
    if keys == [] then o else GetIn(Get(o, keys[0]), keys[1..])
  }

  /** utility.set: a fresh object holding a copy of `o`'s own properties, with `key`
      defined as `v`. */
  function Set(o: Value, key: string, v: Value): (r: Value)
    ensures r.Obj? && key in r.fields && r.fields[key] == v
  {
    Obj(AssignCopy(o)[key := v])
  }

  /** utility.setIn: `set` along the path, rebuilding every object on it. */
  function SetIn(o: Value, keys: seq<string>, v: Value): (r: Value)
    ensures keys == [] ==> r == v
    ensures keys != [] ==> r.Obj? && keys[0] in r.fields
    ensures |keys| == 1 ==> r == Set(o, keys[0], v)
    decreases |keys|
  {
    if keys == [] then v else Set(o, keys[0], SetIn(Get(o, keys[0]), keys[1..], v))
  }

  /** Reading back the path just written gives the value written. */
  lemma {:induction false} GetInSetIn(o: Value, keys: seq<string>, v: Value)
    ensures GetIn(SetIn(o, keys, v), keys) == v
    decreases |keys|
  {
    if keys != [] {
      var inner := SetIn(Get(o, keys[0]), keys[1..], v);
      assert Get(SetIn(o, keys, v), keys[0]) == inner;
      GetInSetIn(Get(o, keys[0]), keys[1..], v);
    }
  }

  /** Setting a key of an object leaves every other key as it was. (A string primitive is
      the exception: the copy gains its index properties.) */
  lemma SetFrame(o: Value, key: string, other: string, v: Value)
    requires !o.Str? && other != key
    ensures Get(Set(o, key, v), other) == Get(o, other)
  {
  }

  /** Writing a path leaves the top-level keys off the path as they were. */
  lemma SetInFrame(o: Value, keys: seq<string>, other: string, v: Value)
    requires keys != [] && !o.Str? && other != keys[0]
    ensures Get(SetIn(o, keys, v), other) == Get(o, other)
  {
    SetFrame(o, keys[0], other, SetIn(Get(o, keys[0]), keys[1..], v));
  }

  lemma {:induction false} GetInAppend(o: Value, p: seq<string>, q: seq<string>)
    ensures GetIn(o, p + q) == GetIn(GetIn(o, p), q)
    decreases |p|
  {
    if p != [] {
      assert (p + q)[0] == p[0] && (p + q)[1..] == p[1..] + q;
      GetInAppend(Get(o, p[0]), p[1..], q);
    } else {
      assert p + q == q;
    }
  }

  /** Below the path just written, reads see the value written. */
  lemma GetInSetInBelow(o: Value, p: seq<string>, q: seq<string>, v: Value)
    ensures GetIn(SetIn(o, p, v), p + q) == GetIn(v, q)
  {
    GetInAppend(SetIn(o, p, v), p, q);
    GetInSetIn(o, p, v);
  }

  // ---------------------------------------------------------------------------
  // Deleting

  /** utility.delete: a fresh object with every own key of `o` except `k`, each copied with
      `get` (so a string primitive's index keys are copied as undefined). Object.keys throws
      a TypeError on null and undefined; a key that is not a string matches no key. */
  function Delete(o: Value, k: Value): (r: Result<Value, JsError>)
    ensures r.Failure? <==> !Exists(o)
    ensures r.Success? ==> r.value.Obj?
    ensures o.Obj? ==> (r.Success? &&
      (forall key :: key in r.value.fields <==> key in o.fields && Str(key) != k) &&
      (forall key :: key in r.value.fields ==> r.value.fields[key] == o.fields[key]))
  {
    match o
    case Undefined => Failure(TypeError)
    case Null => Failure(TypeError)
    case Obj(m) => Success(Obj(map key | key in m && Str(key) != k :: m[key]))
    case Str(s) =>
      var keys := StringIndexCopy(s);
      Success(Obj(map key | key in keys && Str(key) != k :: Undefined))
    case _ => Success(Obj(map[]))
  }

  /** Deleting a key that `set` has just added gives back the object before. */
  lemma DeleteSet(m: map<string, Value>, key: string, v: Value)
    requires key !in m
    ensures Delete(Set(Obj(m), key, v), Str(key)) == Success(Obj(m))
  {
    var r := Delete(Set(Obj(m), key, v), Str(key));
    assert r.value.fields == m;
  }

  /** utility.deleteIn: the object reached by all but the last key loses the last key; when
      that object is falsy, `o` comes back as it is. With no keys, the last key is
      undefined, which deletes nothing. */
  function DeleteIn(o: Value, keys: seq<string>): (r: Value)
    ensures !Truthy(GetIn(o, if keys == [] then [] else keys[..|keys| - 1])) ==> r == o
    ensures keys != [] && GetIn(o, keys[..|keys| - 1]).Obj? ==> GetIn(r, keys) == Undefined
  {
    var leafPath := if keys == [] then [] else keys[..|keys| - 1];
    var leafNode := GetIn(o, leafPath);
    if !Truthy(leafNode) then o
    else
      var last := if keys == [] then Undefined else Str(keys[|keys| - 1]);
      var pruned := Delete(leafNode, last);
      if keys == [] then SetIn(o, leafPath, pruned.value)
      else
        assert keys == leafPath + [keys[|keys| - 1]];
        GetInSetInBelow(o, leafPath, [keys[|keys| - 1]], pruned.value);
        SetIn(o, leafPath, pruned.value)
  }

  /** After deleteIn on path + [k], the path leads to an object without k, and its other
      keys read as before. */
  lemma DeleteInRemoves(o: Value, path: seq<string>, k: string, other: string)
    requires GetIn(o, path).Obj?
    ensures GetIn(DeleteIn(o, path + [k]), path + [k]) == Undefined
    ensures other != k ==> GetIn(DeleteIn(o, path + [k]), path + [other]) == GetIn(o, path + [other])
  {
    var keys := path + [k];
    assert keys[..|keys| - 1] == path;
    var leaf := GetIn(o, path);
    var pruned := Delete(leaf, Str(k)).value;
    assert DeleteIn(o, keys) == SetIn(o, path, pruned);
    GetInSetInBelow(o, path, [k], pruned);
    GetInSetInBelow(o, path, [other], pruned);
    GetInAppend(o, path, [other]);
  }

  /** Where the path does not lead to a truthy value, deleteIn changes nothing. */
  lemma DeleteInMissing(o: Value, path: seq<string>, k: string)
    requires !Truthy(GetIn(o, path))
    ensures DeleteIn(o, path + [k]) == o
  {
    var keys := path + [k];
    assert keys[..|keys| - 1] == path;
  }

  // ---------------------------------------------------------------------------
  // Records by id

  /** The property key a record is filed under: String(item.id). */
  function IdKey(item: Value): string {
    ToString(Get(item, "id"))
  }

  /** utility.normalize: `set` folded over the records from the left, keyed by id; reading
      `.id` of null or undefined throws a TypeError. */
  function Normalize(items: seq<Value>): (r: Result<Value, JsError>)
    ensures r.Success? <==> forall i :: 0 <= i < |items| ==> Exists(items[i])
    ensures r.Success? ==> r.value.Obj?
  {
    if items == [] then Success(Obj(map[]))
    else
      var last := items[|items| - 1];
      var init := items[..|items| - 1];
      match Normalize(init)
      case Failure(e) => Failure(e)
      case Success(acc) =>
        if !Exists(last) then Failure(TypeError)
        else
          assert forall i :: 0 <= i < |init| ==> init[i] == items[i];
          Success(Set(acc, IdKey(last), last))
  }

  /** The ids the records are filed under. */
  function IdKeys(items: seq<Value>): set<string> {
    set i | 0 <= i < |items| :: IdKey(items[i])
  }

  /** The keys of the result are exactly the ids of the records. */
  lemma {:induction false} NormalizeKeys(items: seq<Value>)
    requires Normalize(items).Success?
    ensures Normalize(items).value.fields.Keys == IdKeys(items)
  {
    if items != [] {
      var last := items[|items| - 1];
      var init := items[..|items| - 1];
      var acc := Normalize(init).value;
      assert Normalize(items).value == Set(acc, IdKey(last), last);
      assert acc.fields.Keys == IdKeys(init) by {
        NormalizeKeys(init);
      }
      assert Set(acc, IdKey(last), last).fields == acc.fields[IdKey(last) := last];
      IdKeysSnoc(items);
    }
  }

  /** The ids of a non-empty array: those of all but the last record, and the last's. */
  lemma IdKeysSnoc(items: seq<Value>)
    requires items != []
    ensures IdKeys(items) == IdKeys(items[..|items| - 1]) + {IdKey(items[|items| - 1])}
  {
    var init := items[..|items| - 1];
    forall key | key in IdKeys(items) ensures key in IdKeys(init) + {IdKey(items[|items| - 1])} {
      var k :| 0 <= k < |items| && IdKey(items[k]) == key;
      if k < |init| {
        assert items[k] == init[k];
      }
    }
    forall key | key in IdKeys(init) ensures key in IdKeys(items) {
      var k :| 0 <= k < |init| && IdKey(init[k]) == key;
      assert items[k] == init[k];
    }
    assert IdKey(items[|items| - 1]) in IdKeys(items);
  }

  /** The record filed under a key is the last one in the array with that id. */
  lemma {:induction false} NormalizeLastWins(items: seq<Value>, i: nat)
    requires i < |items| && Normalize(items).Success?
    requires forall j :: i < j < |items| ==> IdKey(items[j]) != IdKey(items[i])
    ensures Get(Normalize(items).value, IdKey(items[i])) == items[i]
  {
    var init := items[..|items| - 1];
    if i < |items| - 1 {
      assert Normalize(init).Success?;
      forall j | i < j < |init| ensures IdKey(init[j]) != IdKey(init[i]) {
        assert init[j] == items[j];
      }
      NormalizeLastWins(init, i);
      assert init[i] == items[i];
    }
  }

  // ---------------------------------------------------------------------------
  // Stringifying

  /** The value stringifyValues stores: booleans stay, other values become String(val)
      when truthy and stay as they are when falsy (`val && String(val)`). */
  function StringifyValue(v: Value): (r: Value)
    ensures r.Bool? || r.Str? || !Truthy(r)
    ensures !v.Bool? && Truthy(v) ==> r == Str(ToString(v))
  {
    if v.Bool? || !Truthy(v) then v else Str(ToString(v))
  }

  /** utility.stringifyValues: every own key of `o` with its value stringified; a string
      primitive's keys get undefined (read through `get`); Object.keys throws a TypeError
      on null and undefined. */
  function StringifyValues(o: Value): (r: Result<Value, JsError>)
    ensures r.Failure? <==> !Exists(o)
    ensures r.Success? ==> r.value.Obj?
    ensures r.Success? ==> forall k :: k in r.value.fields ==>
      var v := r.value.fields[k]; v.Bool? || v.Str? || !Truthy(v)
    ensures o.Obj? ==> (r.Success? && r.value.fields.Keys == o.fields.Keys &&
      forall k :: k in o.fields ==> r.value.fields[k] == StringifyValue(o.fields[k]))
  {
    match o
    case Undefined => Failure(TypeError)
    case Null => Failure(TypeError)
    case Obj(m) => Success(Obj(map k | k in m :: StringifyValue(m[k])))
    case Str(s) =>
      var keys := StringIndexCopy(s);
      Success(Obj(map k | k in keys :: Undefined))
    case _ => Success(Obj(map[]))
  }

  /** Stringifying an already stringified object changes nothing. */
  lemma StringifyValuesIdempotent(o: Value)
    requires Exists(o)
    ensures StringifyValues(StringifyValues(o).value) == StringifyValues(o)
  {
    var once := StringifyValues(o).value;
    var twice := StringifyValues(once).value;
    assert twice.fields == once.fields by {
      forall k | k in once.fields ensures twice.fields[k] == once.fields[k] {
        var v := once.fields[k];
        assert v.Str? && Truthy(v) ==> ToString(v) == v.s;
      }
    }
  }

  /** As written, a zero is left a number although it exists and is not a boolean. */
  lemma StringifyValueSkipsZero()
    ensures Exists(Num(0)) && StringifyValue(Num(0)) == Num(0)
    ensures StringifyValues(Obj(map["count" := Num(0)])) == Success(Obj(map["count" := Num(0)]))
  {
    var r := StringifyValues(Obj(map["count" := Num(0)])).value;
    assert r.fields == map["count" := Num(0)];
  }

  /** The stringification the code's own comment describes: every existing value that is
      not a boolean becomes its string form. */
  function StringifyExisting(v: Value): (r: Value)
    ensures Exists(v) && !v.Bool? ==> r == Str(ToString(v))
    ensures !Exists(v) || v.Bool? ==> r == v
  {
    if v.Bool? || !Exists(v) then v else Str(ToString(v))
  }

  /** The intended stringification turns every existing non-boolean into a string, zero
      included, and agrees with the written one wherever the value is truthy. */
  lemma StringifyExistingCorrected(v: Value)
    ensures Exists(v) && !v.Bool? ==> StringifyExisting(v).Str?
    ensures StringifyExisting(Num(0)) == Str("0")
    ensures Truthy(v) ==> StringifyExisting(v) == StringifyValue(v)
  {
    assert NatToString(0) == "0";
  }

  // ---------------------------------------------------------------------------
  // Picking and omitting

  /** utility.pick: a fresh object with exactly the given keys, each holding obj[k]
      (undefined where `obj` lacks the key). */
  method Pick(obj: map<string, Value>, keys: seq<string>) returns (r: Value)
    ensures r.Obj?
    ensures forall k :: k in r.fields <==> k in keys
    ensures forall k :: k in r.fields ==> r.fields[k] == Get(Obj(obj), k)
  {
    var result: map<string, Value> := map[];
    for i := 0 to |keys|
      invariant forall k :: k in result <==> k in keys[..i]
      invariant forall k :: k in result ==> result[k] == Get(Obj(obj), k)
    {
      assert keys[..i + 1] == keys[..i] + [keys[i]];
      result := result[keys[i] := Get(Obj(obj), keys[i])];
    }
    assert keys[..|keys|] == keys;
    r := Obj(result);
  }

  /** utility.omit: a copy of `obj` without the given keys; the other keys keep their values. */
  method Omit(obj: map<string, Value>, keys: seq<string>) returns (r: Value)
    ensures r.Obj?
    ensures forall k :: k in r.fields <==> k in obj && k !in keys
    ensures forall k :: k in r.fields ==> r.fields[k] == obj[k]
  {
    var result := obj;
    for i := 0 to |keys|
      invariant forall k :: k in result <==> k in obj && k !in keys[..i]
      invariant forall k :: k in result ==> result[k] == obj[k]
    {
      assert keys[..i + 1] == keys[..i] + [keys[i]];
      result := result - {keys[i]};
    }
    assert keys[..|keys|] == keys;
    r := Obj(result);
  }

  // ---------------------------------------------------------------------------
  // Emptiness

  /** utility.isEmpty: falsy, or without own enumerable keys. Only a non-empty string and an
      object with a property are not empty; a non-zero number or `true` has no own keys. */
  function IsEmpty(v: Value): (r: bool)
    ensures r <==> !(v.Str? && v.s != []) && !(v.Obj? && v.fields != map[])
  {
    if !Truthy(v) then true
    else
      var keys := AssignCopy(v).Keys;
      assert v.Str? ==> NatToString(0) in keys;
      assert v.Obj? && v.fields != map[] ==> exists k :: k in keys;
      |keys| == 0
  }

  /** An object `set` returns is never empty, and deleting its only key empties it again. */
  lemma IsEmptyAfterSet(o: Value, key: string, v: Value)
    ensures !IsEmpty(Set(o, key, v))
    ensures IsEmpty(Delete(Set(Obj(map[]), key, v), Str(key)).value)
  {
    DeleteSet(map[], key, v);
  }

  // ---------------------------------------------------------------------------
  // Ranges

  /** 0 .. n-1 in ascending order without the numbers `ex` includes. */
  function RangeWithout(n: nat, ex: seq<Value>): (r: seq<int>)
    ensures forall i :: i in r <==> 0 <= i < n && Num(i) !in ex
    ensures forall i, j :: 0 <= i < j < |r| ==> r[i] < r[j]
  {
    if n == 0 then []
    else if Num(n - 1) in ex then RangeWithout(n - 1, ex)
    else
      var r := RangeWithout(n - 1, ex);
      assert forall i :: 0 <= i < |r| ==> r[i] in r;
      r + [n - 1]
  }

  /** utility.range: Array(x) throws a RangeError unless 0 <= x < 2^32; the indices are
      filtered only when `toExclude` is an array. */
  function Range(x: int, toExclude: Option<seq<Value>>): (r: Result<seq<int>, JsError>)
    ensures r.Failure? <==> x < 0 || x >= 0x1_0000_0000
    ensures r.Success? ==> forall i, j :: 0 <= i < j < |r.value| ==> r.value[i] < r.value[j]
    ensures r.Success? ==> forall i :: i in r.value <==>
      0 <= i < x && (toExclude.None? || Num(i) !in toExclude.value)
  {
    if x < 0 || x >= 0x1_0000_0000 then Failure(RangeError)
    else match toExclude
      case None => Success(RangeWithout(x, []))
      case Some(ex) => Success(RangeWithout(x, ex))
  }

  /** Without exclusions, range(x) is exactly 0 .. x-1. */
  lemma {:induction false} RangeWithoutNothing(n: nat)
    ensures RangeWithout(n, []) == seq(n, i => i)
  {
    if n > 0 {
      var r := RangeWithout(n - 1, []);
      assert r == seq(n - 1, i => i) by {
        RangeWithoutNothing(n - 1);
      }
      assert RangeWithout(n, []) == r + [n - 1] by {
        assert Num(n - 1) !in [];
      }
      assert seq(n, i => i) == seq(n - 1, i => i) + [n - 1];
    }
  }

  // ---------------------------------------------------------------------------
  // Dates

  /** Number(t) > n for a two-character string and n >= 9: only a two-digit numeral can
      exceed n; every other two-character string is a one-digit value, a fraction, zero or
      NaN, and NaN compares false. */
  function NumberExceeds(t: string, n: nat): (r: bool)
    ensures !AllDigits(t) ==> !r
    ensures r ==> DigitsValue(t) > n
  {
    AllDigits(t) && DigitsValue(t) > n
  }

  /** utility.validDate: four characters that are all digits, or year-month-day fields of
      lengths 4, 2 and 2 whose month is not above 12 and whose day is not above 31 as
      numbers. */
  function ValidDate(s: string): (ok: bool)
    ensures |s| == 4 && AllDigits(s) ==> ok
  {
    if |s| == 4 && AllDigits(s) then true
    else
      var date := Split(s, '-');
      !(|date| != 3 || |date[0]| != 4 || |date[1]| != 2 || |date[2]| != 2 ||
        NumberExceeds(date[1], 12) || NumberExceeds(date[2], 31))
  }

  /** A date validDate accepts is a bare year or three dash-free fields of lengths 4, 2, 2
      joined by dashes. */
  lemma ValidDateShape(s: string)
    requires ValidDate(s)
    ensures (|s| == 4 && AllDigits(s)) ||
      exists y, m, d :: |y| == 4 && |m| == 2 && |d| == 2 && '-' !in y + m + d &&
        s == y + "-" + m + "-" + d
  {
    if !(|s| == 4 && AllDigits(s)) {
      var date := Split(s, '-');
      JoinSplit(s, '-');
      assert date[0] in date && date[1] in date && date[2] in date;
      assert Join(date, "-") == date[0] + "-" + Join(date[1..], "-");
      assert Join(date[1..], "-") == date[1] + "-" + date[2];
      assert s == date[0] + "-" + date[1] + "-" + date[2];
      assert '-' !in date[0] + date[1] + date[2];
    }
  }

  /** Three dash-free fields joined by dashes split back into those fields. */
  lemma SplitDate(y: string, m: string, d: string)
    requires '-' !in y && '-' !in m && '-' !in d
    ensures Split(y + "-" + m + "-" + d, '-') == [y, m, d]
  {
    var s := y + "-" + m + "-" + d;
    assert s[|y|] == '-' && s[..|y|] == y && s[|y| + 1..] == m + "-" + d;
    SplitAt(s, '-', |y|);
    var t := m + "-" + d;
    assert t[|m|] == '-' && t[..|m|] == m && t[|m| + 1..] == d;
    SplitAt(t, '-', |m|);
  }

  /** For fields of the right lengths, validDate looks at nothing but the numeric value of
      month and day: the year may be anything dash-free. */
  lemma ValidDateFields(y: string, m: string, d: string)
    requires |y| == 4 && |m| == 2 && |d| == 2 && '-' !in y && '-' !in m && '-' !in d
    ensures ValidDate(y + "-" + m + "-" + d) <==> !NumberExceeds(m, 12) && !NumberExceeds(d, 31)
  {
    SplitDate(y, m, d);
  }

  /** As written, month and day are never checked to be digits: "2019-ab-cd" passes. */
  lemma ValidDateAcceptsLetters(y: string, m: string, d: string)
    requires y == "2019" && m == "ab" && d == "cd"
    ensures ValidDate(y + "-" + m + "-" + d)
  {
    ValidDateFields(y, m, d);
    assert !AllDigits(m) by { assert !IsDigit(m[0]); }
    assert !AllDigits(d) by { assert !IsDigit(d[0]); }
  }

  /** validDate as the year branch evidently intends it: the year, month and day must all
      be digits as well. */
  function ValidDateNumeric(s: string): (ok: bool)
    ensures ok ==> ValidDate(s)
  {
    if |s| == 4 && AllDigits(s) then true
    else
      var date := Split(s, '-');
      |date| == 3 && |date[0]| == 4 && |date[1]| == 2 && |date[2]| == 2 &&
        AllDigits(date[0]) && AllDigits(date[1]) && AllDigits(date[2]) &&
        DigitsValue(date[1]) <= 12 && DigitsValue(date[2]) <= 31
  }

  /** For fields of the right lengths, the corrected check accepts exactly the numeric
      dates whose month is at most 12 and whose day is at most 31. */
  lemma ValidDateNumericFields(y: string, m: string, d: string)
    requires |y| == 4 && |m| == 2 && |d| == 2 && '-' !in y && '-' !in m && '-' !in d
    ensures ValidDateNumeric(y + "-" + m + "-" + d) <==>
      AllDigits(y) && AllDigits(m) && AllDigits(d) && DigitsValue(m) <= 12 && DigitsValue(d) <= 31
  {
    SplitDate(y, m, d);
  }

  /** The corrected check refuses "2019-ab-cd". */
  lemma ValidDateNumericRefusesLetters(y: string, m: string, d: string)
    requires y == "2019" && m == "ab" && d == "cd"
    ensures !ValidDateNumeric(y + "-" + m + "-" + d)
  {
    ValidDateNumericFields(y, m, d);
    assert !IsDigit(m[0]);
  }

  // ---------------------------------------------------------------------------
  // Strings for the page

  /** utility.formatIdSelector: a leading '#' is added only when missing. */
  function FormatIdSelector(s: string): (r: string)
    ensures r != [] && r[0] == '#'
    ensures r == s || r == "#" + s
    ensures s != [] && s[0] == '#' ==> r == s
  {
    if |s| >= 1 && s[..1] == "#" then s else "#" + s
  }

  lemma FormatIdSelectorIdempotent(s: string)
    ensures FormatIdSelector(FormatIdSelector(s)) == FormatIdSelector(s)
  {
    var r := FormatIdSelector(s);
    assert r[..1] == "#";
  }

  /** utility.capitalize: the first character upper-cased, the rest untouched. */
  function Capitalize(s: string): (r: string)
    ensures |r| == |s|
    ensures s != [] ==> r[0] == UpperChar(s[0]) && r[1..] == s[1..]
  {
    if s == [] then [] else Upcase(s[..1]) + s[1..]
  }

  lemma CapitalizeIdempotent(s: string)
    ensures Capitalize(Capitalize(s)) == Capitalize(s)
  {
    if s != [] {
      var c := UpperChar(s[0]);
      var r := Capitalize(s);
      assert r == [c] + s[1..] by {
        assert Upcase(s[..1]) == [c];
      }
      assert Capitalize(r) == [UpperChar(c)] + s[1..] by {
        assert r[..1] == [c] && r[1..] == s[1..];
        assert Upcase([c]) == [UpperChar(c)];
      }
      assert UpperChar(c) == c;
    }
  }

  const LittleSisRoot := "https://littlesis.org/"

  /** The route of an entity's profile: the root, "person/" or "org/" by the extension,
      the id and a slash. */
  function EntityPath(id: int, ext: string): string {
    var kind := if Downcase(ext) == "person" then "person/" else "org/";
    LittleSisRoot + kind + IntToString(id) + "/"
  }

  /** utility.entityLink: the profile URL for a person or an organisation; only the first
      space of the name becomes '_'.
      The link is the entity's route followed by the name, whose first space, if any,
      becomes '_' while every other character is kept. */
  function EntityLink(id: int, name: string, ext: string): (r: string)
    ensures ' ' !in name ==> r == EntityPath(id, ext) + name
    ensures ' ' in name ==> var j := IndexOf(name, ' ');
      r == EntityPath(id, ext) + name[..j] + "_" + name[j + 1..]
  {
    if ' ' in name then
      PrefixReplaceFirst(EntityPath(id, ext), name, ' ', '_');
      EntityPath(id, ext) + ReplaceFirst(name, ' ', '_')
    else EntityPath(id, ext) + ReplaceFirst(name, ' ', '_')
  }

  /** Spaces after the first one survive in the link. */
  lemma EntityLinkKeepsLaterSpaces(id: int, name: string, ext: string)
    requires ' ' in name && ' ' in name[IndexOf(name, ' ') + 1..]
    ensures ' ' in EntityLink(id, name, ext)[|EntityPath(id, ext)| + IndexOf(name, ' ') + 1..]
  {
    var j := IndexOf(name, ' ');
    var head := EntityPath(id, ext) + name[..j] + "_";
    assert |head| == |EntityPath(id, ext)| + j + 1;
    assert EntityLink(id, name, ext)[|head|..] == name[j + 1..];
  }

  // ---------------------------------------------------------------------------
  // Relationship details

  /** One field of the bulk relationship form: display label, field name, input type. */
  datatype Field = Field(display: string, name: string, kind: string)

  const TitleField := Field("Title", "description1", "text")
  const IsCurrentField := Field("Is current?", "is_current", "triboolean")
  const StartDateField := Field("Start date", "start_date", "date")
  const EndDateField := Field("End date", "end_date", "date")
  const TypeField := Field("Type", "description1", "text")
  const AmountField := Field("Amount", "amount", "money")
  const GoodsField := Field("Goods", "goods", "text")
  const D1Field := Field("entity 1 is __ of entity 2", "description1", "text")
  const D2Field := Field("entity 2 is __ of entity 1", "description2", "text")

  const LobbyingMessage := "Lobbying relationships are not currently supposed by the bulk add tool"
  const InvalidCategoryMessage := "Invalid relationship category. It must be a number between 1 and 12"

  /** utility.relationshipDetails: the form fields of a relationship category; lobbying (7)
      and anything outside 1..12 throw. */
  function RelationshipDetails(category: int): (r: Result<seq<Field>, JsError>)
    ensures r.Failure? <==> category == 7 || category < 1 || category > 12
    ensures category == 7 ==> r == Failure(Thrown(LobbyingMessage))
  {
    match category
    case 1 => Success([TitleField, IsCurrentField, StartDateField, EndDateField,
                       Field("Board member?", "is_board", "boolean"),
                       Field("Executive?", "is_executive", "boolean"),
                       Field("Compensation", "compensation", "money")])
    case 2 => Success([TypeField, StartDateField, EndDateField,
                       Field("Degree", "degree", "text"),
                       Field("Field", "education_field", "text"),
                       Field("Dropout?", "is_dropout", "boolean")])
    case 3 => Success([TitleField, StartDateField, EndDateField, IsCurrentField,
                       Field("Membership Dues", "dues", "money")])
    case 4 => Success([D1Field, D2Field, StartDateField, EndDateField, IsCurrentField])
    case 5 => Success([TypeField, AmountField, StartDateField, EndDateField, IsCurrentField, GoodsField])
    case 6 => Success([D1Field, D2Field, AmountField, StartDateField, EndDateField, IsCurrentField, GoodsField])
    case 7 => Failure(Thrown(LobbyingMessage))
    case 8 => Success([D1Field, D2Field, StartDateField, EndDateField, IsCurrentField])
    case 9 => Success([D1Field, D2Field, StartDateField, EndDateField, IsCurrentField])
    case 10 => Success([TitleField, StartDateField, EndDateField, IsCurrentField,
                        Field("Percent Stake", "percent_stake", "number"),
                        Field("Shares Owned", "shares", "number")])
    case 11 => Success([D1Field, D2Field, StartDateField, EndDateField, IsCurrentField])
    case 12 => Success([D1Field, D2Field, StartDateField, EndDateField, IsCurrentField])
    case _ => Failure(Thrown(InvalidCategoryMessage))
  }

  /** Every category the form supports asks for a start and an end date. */
  lemma RelationshipDetailsDates(category: int)
    requires RelationshipDetails(category).Success?
    ensures StartDateField in RelationshipDetails(category).value
    ensures EndDateField in RelationshipDetails(category).value
  {
  }

  /** No field name appears twice in one form. */
  lemma RelationshipDetailsDistinct(category: int)
    requires RelationshipDetails(category).Success?
    ensures DistinctNames(RelationshipDetails(category).value)
  {
    match category
    case 1 => PositionFieldsDistinct();
    case 2 => EducationFieldsDistinct();
    case 3 => MembershipFieldsDistinct();
    case 5 => DonationFieldsDistinct();
    case 6 => TransactionFieldsDistinct();
    case 10 => OwnershipFieldsDistinct();
    case _ => DescribedFieldsDistinct();
  }

  predicate DistinctNames(fs: seq<Field>) {
    forall i, j :: 0 <= i < j < |fs| ==> fs[i].name != fs[j].name
  }

  lemma PositionFieldsDistinct()
    ensures DistinctNames(RelationshipDetails(1).value)
  {
  }

  lemma EducationFieldsDistinct()
    ensures DistinctNames(RelationshipDetails(2).value)
  {
  }

  lemma MembershipFieldsDistinct()
    ensures DistinctNames(RelationshipDetails(3).value)
  {
  }

  lemma DonationFieldsDistinct()
    ensures DistinctNames(RelationshipDetails(5).value)
  {
  }

  lemma TransactionFieldsDistinct()
    ensures DistinctNames(RelationshipDetails(6).value)
  {
  }

  lemma OwnershipFieldsDistinct()
    ensures DistinctNames(RelationshipDetails(10).value)
  {
  }

  /** Categories 4, 8, 9, 11 and 12 share the two description fields. */
  lemma DescribedFieldsDistinct()
    ensures DistinctNames([D1Field, D2Field, StartDateField, EndDateField, IsCurrentField])
  {
  }

  /** Every category but education asks whether the relationship is current. */
  lemma RelationshipDetailsCurrent(category: int)
    requires RelationshipDetails(category).Success?
    ensures IsCurrentField in RelationshipDetails(category).value <==> category != 2
  {
  }
}
