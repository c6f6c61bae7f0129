/** The Entity model's self-contained helpers: merge-chain resolution, lookup with merges,
    extension-name checking, name and summary formatting, field mapping, interlocks and
    unique addresses. The database is passed in as values: the entity table as a map from
    id to record, the link table as a sequence of rows. */
module EntityModel {
  import opened Wrappers
  import opened Strings

  // ---------------------------------------------------------------------------
  // Merging

  /** The columns of an entity row that merging reads. */
  datatype EntityRecord = EntityRecord(id: int, mergedId: Option<int>, isDeleted: bool)

  /** The entity table under the scope in use: id to record. */
  type EntityStore = map<int, EntityRecord>

  /** Every record is stored under its own id. */
  ghost predicate WellKeyed(store: EntityStore) {
    forall k :: k in store ==> store[k].id == k
  }

  /** has_merges?: merged_id is present, which for an integer column means it is not nil. */
  function HasMerges(e: EntityRecord): (r: bool)
    ensures r <==> e.mergedId.Some?
  {
    e.mergedId.Some?
  }

  datatype ResolveError =
    | BrokenMergeChain(missingId: int)  // find_by_id returned nil; Ruby raises NoMethodError
    | MergeChainTooLong                 // the chain is longer than the fuel allows

  /** resolve_merges: follow merged_id until a record without merges. The source has no
      cycle guard; `fuel` bounds the number of hops followed. */
  function ResolveMerges(store: EntityStore, e: EntityRecord, fuel: nat): (r: Result<EntityRecord, ResolveError>)
    ensures !HasMerges(e) ==> r == Success(e)
    ensures r.Success? ==> !HasMerges(r.value)
    ensures r.Success? && HasMerges(e) ==> r.value in store.Values
    ensures HasMerges(e) && e.mergedId.value !in store ==> r == Failure(BrokenMergeChain(e.mergedId.value))
    decreases fuel
  {
    if !HasMerges(e) then Success(e)
    else if e.mergedId.value !in store then Failure(BrokenMergeChain(e.mergedId.value))
    else if fuel == 0 then Failure(MergeChainTooLong)
    else ResolveMerges(store, store[e.mergedId.value], fuel - 1)
  }

  /** The record reached from `e` after `n` merge hops, if the chain is that long. */
  function Hop(store: EntityStore, e: EntityRecord, n: nat): Option<EntityRecord>
    decreases n
  {
    if n == 0 then Some(e)
    else if HasMerges(e) && e.mergedId.value in store then Hop(store, store[e.mergedId.value], n - 1)
    else None
  }

  /** The resolved record is the end of the merge chain: reached by following merged_id,
      within the fuel, and without merges of its own. */
  lemma {:induction false} ResolveMergesFollowsChain(store: EntityStore, e: EntityRecord, fuel: nat)
    requires ResolveMerges(store, e, fuel).Success?
    ensures exists n: nat :: n <= fuel && Hop(store, e, n) == Some(ResolveMerges(store, e, fuel).value)
    decreases fuel
  {
    if HasMerges(e) {
      var next := store[e.mergedId.value];
      ResolveMergesFollowsChain(store, next, fuel - 1);
      var n: nat :| n <= fuel - 1 && Hop(store, next, n) == Some(ResolveMerges(store, next, fuel - 1).value);
      assert Hop(store, e, n + 1) == Hop(store, next, n);
    } else {
      assert Hop(store, e, 0) == Some(e);
    }
  }

  /** More fuel never changes a resolution that succeeded. */
  lemma {:induction false} ResolveMergesMoreFuel(store: EntityStore, e: EntityRecord, fuel: nat, more: nat)
    requires fuel <= more
    requires ResolveMerges(store, e, fuel).Success?
    ensures ResolveMerges(store, e, more) == ResolveMerges(store, e, fuel)
    decreases fuel
  {
    if HasMerges(e) {
      ResolveMergesMoreFuel(store, store[e.mergedId.value], fuel - 1, more - 1);
    }
  }

  /** An acyclic merge forest: every merged_id that exists points to a record of strictly
      smaller rank. */
  ghost predicate MergeRanked(store: EntityStore, rank: map<int, nat>) {
    && store.Keys <= rank.Keys
    && forall k :: k in store && HasMerges(store[k]) && store[k].mergedId.value in store ==>
         rank[store[k].mergedId.value] < rank[k]
  }

  /** On an acyclic store, fuel above the rank of the first target suffices: resolution
      then either reaches a record without merges or finds the chain broken. */
  lemma {:induction false} RankedResolutionTerminates(store: EntityStore, rank: map<int, nat>, e: EntityRecord, fuel: nat)
    requires MergeRanked(store, rank)
    requires HasMerges(e) && e.mergedId.value in store ==> rank[e.mergedId.value] < fuel
    ensures ResolveMerges(store, e, fuel) != Failure(MergeChainTooLong)
    decreases fuel
  {
    if HasMerges(e) && e.mergedId.value in store {
      var m := e.mergedId.value;
      var next := store[m];
      if HasMerges(next) && next.mergedId.value in store {
        assert rank[next.mergedId.value] < rank[m];
      }
      RankedResolutionTerminates(store, rank, next, fuel - 1);
    }
  }

  datatype FindError =
    | MergedEntityError(resolved: EntityRecord)  // Exceptions::MergedEntityError
    | RecordNotFound                             // ActiveRecord::RecordNotFound
    | ResolveFailed(cause: ResolveError)         // raised while resolving the chain

  /** find_with_merges: a merged record raises MergedEntityError carrying the end of its
      chain (checked before the deleted flag); a missing or deleted record raises
      RecordNotFound; otherwise the record itself. */
  function FindWithMerges(store: EntityStore, id: int, fuel: nat): (r: Result<EntityRecord, FindError>)
    ensures r.Success? <==> id in store && !HasMerges(store[id]) && !store[id].isDeleted
    ensures r.Success? ==> r.value == store[id]
    ensures id !in store ==> r == Failure(RecordNotFound)
    ensures r == Failure(RecordNotFound) ==> id !in store || (!HasMerges(store[id]) && store[id].isDeleted)
    ensures r.Failure? && r.error.MergedEntityError? ==>
              id in store && HasMerges(store[id]) && !HasMerges(r.error.resolved)
    ensures id in store && HasMerges(store[id]) && ResolveMerges(store, store[id], fuel).Success? ==>
              r == Failure(MergedEntityError(ResolveMerges(store, store[id], fuel).value))
    ensures id in store && !HasMerges(store[id]) && store[id].isDeleted ==> r == Failure(RecordNotFound)
    ensures r.Failure? && r.error.ResolveFailed? ==>
              id in store && HasMerges(store[id]) && ResolveMerges(store, store[id], fuel) == Failure(r.error.cause)
  {
    if id in store && HasMerges(store[id]) then
      match ResolveMerges(store, store[id], fuel)
      case Success(t) => Failure(MergedEntityError(t))
      case Failure(cause) => Failure(ResolveFailed(cause))
    else if id !in store || store[id].isDeleted then Failure(RecordNotFound)
    else Success(store[id])
  }

  // ---------------------------------------------------------------------------
  // Extension names

  /** The argument of ext_name_or_id_to_name: a String, an Integer, or anything else. */
  datatype NameOrId = Name(name: string) | Index(index: int) | OtherValue

  /** The errors of ext_name_or_id_to_name: its own ArgumentErrors, and the RangeError that
      Array#[] raises for an Integer that does not fit in a C long. */
  datatype ExtNameError =
    | NoExtensionNamed(name: string)
    | NoExtensionWithId(id: int)
    | NotStringOrInteger
    | IndexBeyondLong(id: int)

  /** The range of a C long, which Array#[] converts its Integer argument to. */
  predicate FitsLong(i: int) {
    -0x8000_0000_0000_0000 <= i < 0x8000_0000_0000_0000
  }

  /** Ruby Array#[] with one integer that fits in a C long: negative indexes count from the
      end; nil outside the array. */
  function RubyIndex<T>(xs: seq<T>, i: int): (r: Option<T>)
    ensures r.Some? <==> -|xs| <= i < |xs|
    ensures 0 <= i < |xs| ==> r == Some(xs[i])
    ensures -|xs| <= i < 0 ==> r == Some(xs[|xs| + i])
  {
    if 0 <= i < |xs| then Some(xs[i])
    else if -|xs| <= i < 0 then Some(xs[|xs| + i])
    else None
  }

  /** ext_name_or_id_to_name over the list of extension names (`names`, whose entries
      may be nil). */
  function ExtNameOrIdToName(x: NameOrId, names: seq<Option<string>>): (r: Result<string, ExtNameError>)
    ensures x.Name? ==> (r.Success? <==> Some(x.name) in names)
    ensures x.Name? && r.Success? ==> r.value == x.name
    ensures x.Index? && FitsLong(x.index) ==>
      (r.Success? <==> RubyIndex(names, x.index).Some? && RubyIndex(names, x.index).value.Some?)
    ensures x.Index? && r.Success? ==> Some(r.value) in names
    ensures x.OtherValue? ==> r == Failure(NotStringOrInteger)
    ensures x.Index? && !FitsLong(x.index) ==> r == Failure(IndexBeyondLong(x.index))
  {
    match x
    case Name(n) =>
      if Some(n) in names then Success(n) else Failure(NoExtensionNamed(n))
    case Index(i) =>
      if !FitsLong(i) then Failure(IndexBeyondLong(i))
      else
      var entry := RubyIndex(names, i);
      if entry.Some? && entry.value.Some? then Success(entry.value.value) else Failure(NoExtensionWithId(i))
    case OtherValue => Failure(NotStringOrInteger)
  }

  /** Every name in the list is accepted by name and by each of its indexes, the
      negative one included. (A Ruby array's length fits in a C long.) */
  lemma ExtensionNameRoundTrip(names: seq<Option<string>>, i: nat)
    requires |names| <= 0x8000_0000_0000_0000
    requires i < |names| && names[i].Some?
    ensures ExtNameOrIdToName(Name(names[i].value), names) == Success(names[i].value)
    ensures ExtNameOrIdToName(Index(i), names) == Success(names[i].value)
    ensures ExtNameOrIdToName(Index(i - |names|), names) == Success(names[i].value)
  {
  }

  /** The argument of entity_id_for: an Entity, or a value converted with to_i. */
  datatype EntityOrId = AnEntity(record: EntityRecord) | IntegerId(i: int) | StringId(s: string)

  /** entity_id_for: the entity's id, or the argument's to_i. */
  function EntityIdFor(x: EntityOrId): (r: int)
    ensures x.AnEntity? ==> r == x.record.id
    ensures x.IntegerId? ==> r == x.i
    ensures x.StringId? ==> r == ToI(x.s)
  {
    match x
    case AnEntity(e) => e.id
    case IntegerId(i) => i
    case StringId(s) => ToI(s)
  }

  /** An id and its decimal string name the same entity. */
  lemma EntityIdForString(id: int)
    ensures EntityIdFor(StringId(IntToString(id))) == EntityIdFor(IntegerId(id)) == id
  {
    ToIOfIntToString(id);
  }

  // ---------------------------------------------------------------------------
  // Names and summaries

  /** The words of more than one character, in order. */
  function LongWords(ws: seq<string>): (r: seq<string>)
    ensures |r| <= |ws|
  {
    if ws == [] then []
    else if |ws[0]| > 1 then [ws[0]] + LongWords(ws[1..])
    else LongWords(ws[1..])
  }

  /** Exactly the long words are kept. */
  lemma {:induction false} LongWordsMembers(ws: seq<string>)
    ensures forall w :: w in LongWords(ws) ==> w in ws && |w| > 1
    ensures forall w :: w in ws && |w| > 1 ==> w in LongWords(ws)
  {
    if ws != [] {
      LongWordsMembers(ws[1..]);
      assert forall w :: w in ws <==> w == ws[0] || w in ws[1..];
    }
  }

  /** Selecting from a concatenation selects from each part, in order. */
  lemma {:induction false} LongWordsAppend(a: seq<string>, b: seq<string>)
    ensures LongWords(a + b) == LongWords(a) + LongWords(b)
    decreases |a|
  {
    if a == [] {
      assert a + b == b;
    } else {
      var x, rest := a[0], a[1..];
      var ab := a + b;
      assert ab != [] && ab[0] == x by {}
      assert ab[1..] == rest + b by {}
      LongWordsAppend(rest, b);
      var tail := LongWords(rest) + LongWords(b);
      if |x| > 1 {
        assert LongWords(ab) == [x] + tail;
        assert LongWords(a) == [x] + LongWords(rest);
        assert [x] + tail == ([x] + LongWords(rest)) + LongWords(b) by {}
      } else {
        assert LongWords(ab) == tail;
        assert LongWords(a) == LongWords(rest);
      }
    }
  }

  /** A single word is kept exactly when it is long. */
  lemma LongWordsOne(w: string)
    ensures LongWords([w]) == if |w| > 1 then [w] else []
  {
    assert [w][1..] == [];
  }

  lemma {:induction false} LongWordsKeepsLong(ws: seq<string>)
    requires forall w :: w in ws ==> |w| > 1
    ensures LongWords(ws) == ws
  {
    if ws != [] {
      assert forall w :: w in ws[1..] ==> w in ws;
      LongWordsKeepsLong(ws[1..]);
    }
  }

  /** name_without_initials: dots deleted, then the space-separated words of one
      character dropped. */
  function NameWithoutInitials(name: string): (r: string)
    ensures '.' !in r
    ensures forall w :: w in Words(r) ==> |w| >= 2 && w in Words(ReplaceAll(name, ".", ""))
    ensures Words(r) == LongWords(Words(ReplaceAll(name, ".", "")))
    ensures r == Join(Words(r), " ")
  {
    var undotted := ReplaceAll(name, ".", "");
    ReplaceAllRemoves(name, '.');
    var kept := LongWords(Words(undotted));
    LongWordsMembers(Words(undotted));
    assert forall w :: w in kept ==> '.' !in w by {
      forall w | w in kept ensures '.' !in w {
        WordInString(undotted, w);
      }
    }
    JoinWithout(kept, " ", '.');
    WordsOfJoin(kept);
    Join(kept, " ")
  }

  /** Every character of a word of `s` is a character of `s`. */
  lemma {:induction false} WordInString(s: string, w: string)
    requires w in Words(s)
    ensures forall c :: c in w ==> c in s
    decreases |s|
  {
    if s != [] {
      if IsSpace(s[0]) {
        WordInString(s[1..], w);
      } else {
        var n := WordLength(s);
        if w != s[..n] {
          WordInString(s[n..], w);
        }
      }
    }
  }

  lemma {:induction false} JoinWithout(ws: seq<string>, sep: string, c: char)
    requires c !in sep
    requires forall w :: w in ws ==> c !in w
    ensures c !in Join(ws, sep)
  {
    if |ws| > 1 {
      assert forall w :: w in ws[1..] ==> w in ws;
      JoinWithout(ws[1..], sep, c);
    }
  }

  /** Applying name_without_initials twice is the same as applying it once. */
  lemma NameWithoutInitialsIdempotent(name: string)
    ensures NameWithoutInitials(NameWithoutInitials(name)) == NameWithoutInitials(name)
  {
    var once := NameWithoutInitials(name);
    var kept := LongWords(Words(ReplaceAll(name, ".", "")));
    assert once == Join(kept, " ");
    ReplaceAllRemovesNothing(once, '.');
    WordsOfJoin(kept);
    LongWordsKeepsLong(kept);
  }

  /** EXCERPT_SIZE. */
  const ExcerptSize := 150

  /** summary_excerpt. `truncate` stands for ActiveSupport's
      String#truncate(EXCERPT_SIZE, separator: ' '), which is not part of this model. */
  function SummaryExcerpt(summary: Option<string>, truncate: string -> string): (r: Option<string>)
    ensures summary.None? <==> r.None?
    ensures summary.Some? && |summary.value| <= ExcerptSize ==> r == summary
    ensures summary.Some? && |summary.value| > ExcerptSize && '\n' in summary.value[..ExcerptSize] ==>
              && r.Some? && |r.value| >= 3 && r.value[|r.value| - 3..] == "..."
              && (var line := r.value[..|r.value| - 3];
                  && '\n' !in line && |line| < ExcerptSize
                  && summary.value[..|line| + 1] == line + "\n")
    ensures summary.Some? && |summary.value| > ExcerptSize && '\n' !in summary.value[..ExcerptSize] ==>
              r == Some(truncate(summary.value))
  {
    match summary
    case None => None
    case Some(s) =>
      if |s| <= ExcerptSize then Some(s)
      else if '\n' in s[..ExcerptSize] then
        var i := IndexOf(s, '\n');
        assert s[..ExcerptSize][IndexOf(s[..ExcerptSize], '\n')] == '\n';
        FirstIndexInPrefix(s, ExcerptSize, '\n');
        assert s[..i + 1] == s[..i] + "\n";
        Some(s[..i] + "...")
      else Some(truncate(s))
  }

  /** The first occurrence in a prefix is the first occurrence in the whole string. */
  lemma FirstIndexInPrefix(s: string, n: nat, c: char)
    requires n <= |s| && c in s[..n]
    ensures c in s && IndexOf(s, c) == IndexOf(s[..n], c) < n
  {
    var j := IndexOf(s[..n], c);
    assert s[j] == c;
    var i := IndexOf(s, c);
    assert forall k :: 0 <= k < i ==> s[k] != c by {
      forall k | 0 <= k < i ensures s[k] != c {
        assert s[..i][k] == s[k];
      }
    }
    assert forall k :: 0 <= k < j ==> s[k] != c by {
      forall k | 0 <= k < j ensures s[k] != c {
        assert s[..n][..j][k] == s[k];
      }
    }
  }

  /** trim_name_whitespace, the before-validation callback, on the name it rewrites. */
  class Entity {
    var name: Option<string>

    constructor (name: Option<string>)
      ensures this.name == name
    {
      this.name := name;
    }

    method TrimNameWhitespace()
      modifies this
      ensures old(name).None? ==> name.None?
      ensures old(name).Some? ==> name == Some(Strip(old(name).value))
    {
      if name.Some? {
        name := Some(Strip(name.value));
      }
    }
  }

  /** Trimming twice leaves the name as trimming once does. */
  method TrimTwice(e: Entity)
    modifies e
    ensures e.name == if old(e.name).Some? then Some(Strip(old(e.name).value)) else None
  {
    e.TrimNameWhitespace();
    if e.name.Some? {
      StripIdempotent(old(e.name).value);
    }
    e.TrimNameWhitespace();
  }

  // ---------------------------------------------------------------------------
  // Entity fields

  /** The gender table of map_field_values. */
  function GenderName(value: Option<string>): (r: Option<string>)
    ensures r.Some? <==> value == Some("1") || value == Some("2") || value == Some("3")
  {
    match value
    case Some("1") => Some("Female")
    case Some("2") => Some("Male")
    case Some("3") => Some("Other")
    case _ => None
  }

  /** map_field_values: gender_id becomes gender with its name, party_id becomes
      party_affiliation with the party entity's name (looked up in `partyNames`, the
      name column of the entity table), any other field passes through unchanged. */
  function MapFieldValues(field: string, value: Option<string>, partyNames: map<string, string>): (r: (string, Option<string>))
    ensures field == "gender_id" ==> r.0 == "gender" && r.1 == GenderName(value)
    ensures field == "party_id" ==> r.0 == "party_affiliation"
    ensures field == "party_id" ==> (r.1.Some? <==> value.Some? && value.value in partyNames)
    ensures field != "gender_id" && field != "party_id" ==> r == (field, value)
  {
    if field == "gender_id" then ("gender", GenderName(value))
    else if field == "party_id" then
      ("party_affiliation", if value.Some? && value.value in partyNames then Some(partyNames[value.value]) else None)
    else (field, value)
  }

  lemma GenderCodes()
    ensures MapFieldValues("gender_id", Some("1"), map[]) == ("gender", Some("Female"))
    ensures MapFieldValues("gender_id", Some("2"), map[]) == ("gender", Some("Male"))
    ensures MapFieldValues("gender_id", Some("3"), map[]) == ("gender", Some("Other"))
    ensures MapFieldValues("gender_id", Some("4"), map[]) == ("gender", None)
  {
  }

  // ---------------------------------------------------------------------------
  // Interlocks

  /** A row of the link table: one direction of a relationship. */
  datatype Link = Link(entity1Id: int, entity2Id: int)

  /** Ruby Array#uniq: first occurrences, in order. */
  function Uniq(xs: seq<int>): (r: seq<int>)
    ensures forall x :: x in r <==> x in xs
    ensures forall i, j :: 0 <= i < j < |r| ==> r[i] != r[j]
  {
    if xs == [] then []
    else
      var rest := Uniq(xs[..|xs| - 1]);
      if xs[|xs| - 1] in rest then rest else rest + [xs[|xs| - 1]]
  }

  /** The entity2_id of every link whose entity1_id is `e` and whose entity2_id is
      accepted by `keep` (Link.where(...).pluck(:entity2_id)). */
  function Pluck(links: seq<Link>, e: int, keep: set<int>, anyTarget: bool): (r: seq<int>)
    ensures forall x :: x in r <==> Link(e, x) in links && (anyTarget || x in keep)
  {
    if links == [] then []
    else
      var rest := Pluck(links[1..], e, keep, anyTarget);
      var l := links[0];
      if l.entity1Id == e && (anyTarget || l.entity2Id in keep) then [l.entity2Id] + rest else rest
  }

  /** interlock_ids: the entities linked from both `e1` and `e2`, each once, other than
      `e1` and `e2` themselves. */
  function InterlockIds(links: seq<Link>, e1: int, e2: int): (r: seq<int>)
    ensures forall x :: x in r <==> x != e1 && x != e2 && Link(e1, x) in links && Link(e2, x) in links
    ensures forall i, j :: 0 <= i < j < |r| ==> r[i] != r[j]
  {
    var relatedIds := Uniq(Pluck(links, e1, {}, true));
    var common := Uniq(Pluck(links, e2, set x | x in relatedIds, false));
    RemoveAll(common, {e1, e2})
  }

  /** Ruby Array#- : every element not in `drop`, in order. */
  function RemoveAll(xs: seq<int>, drop: set<int>): (r: seq<int>)
    ensures forall x :: x in r <==> x in xs && x !in drop
    ensures (forall i, j :: 0 <= i < j < |xs| ==> xs[i] != xs[j]) ==>
              forall i, j :: 0 <= i < j < |r| ==> r[i] != r[j]
  {
    if xs == [] then []
    else
      var rest := RemoveAll(xs[1..], drop);
      assert forall i, j :: 1 <= i < j < |xs| ==> xs[1..][i - 1] != xs[1..][j - 1] ==> xs[i] != xs[j];
      if xs[0] in drop then rest else [xs[0]] + rest
  }

  /** Interlocks are symmetric in the two entities. */
  lemma InterlockIdsSymmetric(links: seq<Link>, e1: int, e2: int, x: int)
    ensures x in InterlockIds(links, e1, e2) <==> x in InterlockIds(links, e2, e1)
  {
  }

  // ---------------------------------------------------------------------------
  // Unique addresses

  /** An address row; coordinates as their to_s renderings, nil when not geocoded. */
  datatype Address = Address(id: int, latitude: Option<string>, longitude: Option<string>)

  /** The addresses the coordinate index takes: `latitude.present? and longitude.present?`. */
  predicate Geocoded(a: Address) {
    Present(a.latitude) && Present(a.longitude)
  }

  /** The addresses listed at the end: `latitude.nil? or longitude.nil?`. An address with a
      blank but non-nil coordinate is neither geocoded nor unlocated. */
  predicate Unlocated(a: Address) {
    a.latitude.None? || a.longitude.None?
  }

  /** Ruby s[0..5]: the first six characters, or all of a shorter string. */
  function FirstSix(s: string): (r: string)
    ensures |r| == if |s| <= 6 then |s| else 6
    ensures IsPrefix(r, s)
  {
    if |s| <= 6 then s else s[..6]
  }

  /** The deduplication key: six characters of latitude, a comma, six of longitude. */
  function CoordinateKey(a: Address): string
    requires Geocoded(a)
  {
    FirstSix(a.latitude.value) + "," + FirstSix(a.longitude.value)
  }

  /** The geocoded addresses whose key is neither in `seen` nor taken by an earlier one. */
  function FirstPerKey(adrs: seq<Address>, seen: set<string>): (r: seq<Address>)
    ensures |r| <= |adrs|
  {
    if adrs == [] then []
    else
      var a := adrs[0];
      if Geocoded(a) && CoordinateKey(a) !in seen then [a] + FirstPerKey(adrs[1..], seen + {CoordinateKey(a)})
      else FirstPerKey(adrs[1..], seen)
  }

  /** Only geocoded input addresses with an unseen key are kept. */
  lemma {:induction false} FirstPerKeyKept(adrs: seq<Address>, seen: set<string>)
    ensures forall a :: a in FirstPerKey(adrs, seen) ==> a in adrs && Geocoded(a) && CoordinateKey(a) !in seen
  {
    if adrs != [] {
      var h := adrs[0];
      if Geocoded(h) && CoordinateKey(h) !in seen {
        var seen' := seen + {CoordinateKey(h)};
        var rest := FirstPerKey(adrs[1..], seen');
        FirstPerKeyKept(adrs[1..], seen');
        assert FirstPerKey(adrs, seen) == [h] + rest;
        forall a | a in [h] + rest ensures a in adrs && Geocoded(a) && CoordinateKey(a) !in seen {
          if a != h {
            assert a in rest && a in adrs[1..];
          }
        }
      } else {
        FirstPerKeyKept(adrs[1..], seen);
        assert FirstPerKey(adrs, seen) == FirstPerKey(adrs[1..], seen);
        assert forall a :: a in adrs[1..] ==> a in adrs;
      }
    }
  }

  /** FirstPerKey of the suffix from `i`, by position; the loop below walks it. */
  function FirstPerKeyFrom(adrs: seq<Address>, i: nat, seen: set<string>): seq<Address>
    requires i <= |adrs|
    decreases |adrs| - i
  {
    if i == |adrs| then []
    else
      var a := adrs[i];
      if Geocoded(a) && CoordinateKey(a) !in seen then [a] + FirstPerKeyFrom(adrs, i + 1, seen + {CoordinateKey(a)})
      else FirstPerKeyFrom(adrs, i + 1, seen)
  }

  lemma {:induction false} FirstPerKeyFromSuffix(adrs: seq<Address>, i: nat, seen: set<string>)
    requires i <= |adrs|
    ensures FirstPerKeyFrom(adrs, i, seen) == FirstPerKey(adrs[i..], seen)
    decreases |adrs| - i
  {
    if i < |adrs| {
      var a := adrs[i];
      assert adrs[i..][0] == a && adrs[i..][1..] == adrs[i + 1..];
      if Geocoded(a) && CoordinateKey(a) !in seen {
        FirstPerKeyFromSuffix(adrs, i + 1, seen + {CoordinateKey(a)});
      } else {
        FirstPerKeyFromSuffix(adrs, i + 1, seen);
      }
    }
  }

  /** The addresses with a nil coordinate, in order. */
  function Ungeocoded(adrs: seq<Address>): (r: seq<Address>)
    ensures |r| <= |adrs|
  {
    if adrs == [] then []
    else if Unlocated(adrs[0]) then [adrs[0]] + Ungeocoded(adrs[1..])
    else Ungeocoded(adrs[1..])
  }

  /** The nil-coordinate list holds exactly the input's addresses with a nil coordinate. */
  lemma {:induction false} UngeocodedMembers(adrs: seq<Address>)
    ensures forall a :: a in Ungeocoded(adrs) <==> a in adrs && Unlocated(a)
  {
    if adrs != [] {
      UngeocodedMembers(adrs[1..]);
      assert adrs == [adrs[0]] + adrs[1..];
    }
  }

  /** unique_addresses over the addresses in created_at-descending order: the first
      address per coordinate key, in first-seen order (the order of the index hash's
      values), followed by every address with a nil coordinate. */
  method UniqueAddresses(adrs: seq<Address>) returns (r: seq<Address>)
    ensures r == FirstPerKey(adrs, {}) + Ungeocoded(adrs)
  {
    var index: map<string, Address> := map[];
    var values: seq<Address> := [];
    var nils := Ungeocoded(adrs);
    var i := 0;
    assert index.Keys == {};
    assert FirstPerKeyFrom(adrs, 0, {}) == FirstPerKey(adrs, {}) by {
      FirstPerKeyFromSuffix(adrs, 0, {});
      assert adrs[0..] == adrs;
    }
    while i < |adrs|
      invariant 0 <= i <= |adrs|
      invariant values + FirstPerKeyFrom(adrs, i, index.Keys) == FirstPerKey(adrs, {})
    {
      var a := adrs[i];
      if Geocoded(a) {
        var key := CoordinateKey(a);
        if key !in index {
          assert index[key := a].Keys == index.Keys + {key};
          index := index[key := a];
          values := values + [a];
        }
      }
      i := i + 1;
    }
    r := values + nils;
  }

  /** No two addresses of `r` share a key. */
  ghost predicate KeysDistinct(r: seq<Address>) {
    forall i, j :: 0 <= i < j < |r| ==>
      Geocoded(r[i]) && Geocoded(r[j]) && CoordinateKey(r[i]) != CoordinateKey(r[j])
  }

  /** No two kept addresses share a key. */
  lemma {:induction false} FirstPerKeyDistinct(adrs: seq<Address>, seen: set<string>)
    ensures KeysDistinct(FirstPerKey(adrs, seen))
  {
    if adrs != [] {
      var a := adrs[0];
      if Geocoded(a) && CoordinateKey(a) !in seen {
        var seen' := seen + {CoordinateKey(a)};
        var rest := FirstPerKey(adrs[1..], seen');
        assert KeysDistinct(rest) by {
          FirstPerKeyDistinct(adrs[1..], seen');
        }
        assert forall b :: b in rest ==> Geocoded(b) && CoordinateKey(b) != CoordinateKey(a) by {
          FirstPerKeyKept(adrs[1..], seen');
        }
        assert FirstPerKey(adrs, seen) == [a] + rest;
        ConsKeysDistinct(a, rest);
      } else {
        assert FirstPerKey(adrs, seen) == FirstPerKey(adrs[1..], seen);
        FirstPerKeyDistinct(adrs[1..], seen);
      }
    }
  }

  /** A geocoded address in front of distinctly keyed ones with other keys keeps the keys
      distinct. */
  lemma ConsKeysDistinct(a: Address, rest: seq<Address>)
    requires Geocoded(a) && KeysDistinct(rest)
    requires forall b :: b in rest ==> Geocoded(b) && CoordinateKey(b) != CoordinateKey(a)
    ensures KeysDistinct([a] + rest)
  {
    var r := [a] + rest;
    forall i, j | 0 <= i < j < |r|
      ensures Geocoded(r[i]) && Geocoded(r[j]) && CoordinateKey(r[i]) != CoordinateKey(r[j])
    {
      assert r[j] == rest[j - 1] && r[j] in rest;
      if i > 0 {
        assert r[i] == rest[i - 1];
      }
    }
  }

  /** The first geocoded address with the given key, in input order. */
  function FirstWithKey(adrs: seq<Address>, key: string): Option<Address>
  {
    if adrs == [] then None
    else if Geocoded(adrs[0]) && CoordinateKey(adrs[0]) == key then Some(adrs[0])
    else FirstWithKey(adrs[1..], key)
  }

  /** Each kept address is the first, in created_at-descending order, with its key. */
  lemma {:induction false} KeptIsFirstWithKey(adrs: seq<Address>, seen: set<string>, a: Address)
    requires a in FirstPerKey(adrs, seen)
    ensures Geocoded(a) && FirstWithKey(adrs, CoordinateKey(a)) == Some(a)
  {
    assert Geocoded(a) && CoordinateKey(a) !in seen by {
      FirstPerKeyKept(adrs, seen);
    }
    var h := adrs[0];
    if Geocoded(h) && CoordinateKey(h) !in seen {
      var seen' := seen + {CoordinateKey(h)};
      assert FirstPerKey(adrs, seen) == [h] + FirstPerKey(adrs[1..], seen');
      if a != h {
        assert a in FirstPerKey(adrs[1..], seen');
        assert CoordinateKey(a) != CoordinateKey(h) by {
          FirstPerKeyKept(adrs[1..], seen');
        }
        KeptIsFirstWithKey(adrs[1..], seen', a);
      }
    } else {
      assert FirstPerKey(adrs, seen) == FirstPerKey(adrs[1..], seen);
      KeptIsFirstWithKey(adrs[1..], seen, a);
    }
  }

  /** Every geocoded key appears among the kept addresses, unless already seen. */
  lemma {:induction false} FirstPerKeyCovers(adrs: seq<Address>, seen: set<string>, a: Address)
    requires a in adrs && Geocoded(a) && CoordinateKey(a) !in seen
    ensures exists b :: b in FirstPerKey(adrs, seen) && Geocoded(b) && CoordinateKey(b) == CoordinateKey(a)
  {
    var h := adrs[0];
    if Geocoded(h) && CoordinateKey(h) !in seen {
      if CoordinateKey(h) == CoordinateKey(a) {
        assert h in FirstPerKey(adrs, seen);
      } else {
        FirstPerKeyCovers(adrs[1..], seen + {CoordinateKey(h)}, a);
        var b :| b in FirstPerKey(adrs[1..], seen + {CoordinateKey(h)}) && Geocoded(b) && CoordinateKey(b) == CoordinateKey(a);
        assert b in FirstPerKey(adrs, seen);
      }
    } else {
      assert a != h;
      FirstPerKeyCovers(adrs[1..], seen, a);
    }
  }

  /** The kept and the ungeocoded addresses together are never more than the input. */
  lemma {:induction false} UniqueAddressesLength(adrs: seq<Address>, seen: set<string>)
    ensures |FirstPerKey(adrs, seen)| + |Ungeocoded(adrs)| <= |adrs|
  {
    if adrs != [] {
      var a := adrs[0];
      if Geocoded(a) && CoordinateKey(a) !in seen {
        UniqueAddressesLength(adrs[1..], seen + {CoordinateKey(a)});
      } else {
        UniqueAddressesLength(adrs[1..], seen);
      }
    }
  }

  /** An address whose coordinates are both non-nil but one is blank passes neither filter,
      so unique_addresses leaves it out. */
  lemma BlankCoordinateDropped(adrs: seq<Address>, a: Address)
    requires a.latitude.Some? && a.longitude.Some?
    requires Blank(a.latitude.value) || Blank(a.longitude.value)
    ensures a !in FirstPerKey(adrs, {}) + Ungeocoded(adrs)
  {
    FirstPerKeyKept(adrs, {});
    UngeocodedMembers(adrs);
  }
}
