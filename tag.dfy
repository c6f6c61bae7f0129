/** Tags: the set arithmetic that turns a client's tag ids into update actions, and the
    memoised, normalised name -> tag lookup table with the searches built on it. */
module TagModel {
  import opened Wrappers
  import opened Strings

  datatype Tag = Tag(id: int, name: string, restricted: bool)
  {
    /** Tag#restricted?: the tag's own `restricted` column. */
    predicate IsRestricted()
    {
      restricted
    }
  }

  // ---------------------------------------------------------------------------
  // Update actions

  datatype UpdateActions = UpdateActions(ignore: set<int>, add: set<int>, remove: set<int>)

  /** Tag.parse_update_actions: ids on both sides are ignored, ids only the client sends
      are added, ids only the server holds are removed. */
  function ParseUpdateActions(client: set<int>, server: set<int>): (r: UpdateActions)
    ensures forall id :: id in r.ignore <==> id in client && id in server
    ensures forall id :: id in r.add <==> id in client && id !in server
    ensures forall id :: id in r.remove <==> id in server && id !in client
  {
    UpdateActions(client * server, client - server, server - client)
  }

  /** The three actions partition the union of both sides: they are pairwise disjoint,
      the client's ids are add + ignore, and the server's ids are remove + ignore. */
  lemma UpdateActionsPartition(client: set<int>, server: set<int>)
    ensures var r := ParseUpdateActions(client, server);
      r.add !! r.ignore && r.remove !! r.ignore && r.add !! r.remove &&
      r.add + r.ignore == client && r.remove + r.ignore == server
  {
    var r := ParseUpdateActions(client, server);
    assert r.add + r.ignore == client by {
      forall id | id in client ensures id in r.add + r.ignore {
      }
    }
    assert r.remove + r.ignore == server by {
      forall id | id in server ensures id in r.remove + r.ignore {
      }
    }
  }

  // ---------------------------------------------------------------------------
  // The lookup table

  /** The key a tag is filed under: its name lowercased, with every '-' turned into a space. */
  function Key(t: Tag): (k: string)
    ensures |k| == |t.name| && '-' !in k
    ensures forall i :: 0 <= i < |k| ==> k[i] == if t.name[i] == '-' then ' ' else LowerChar(t.name[i])
  {
    Tr(Downcase(t.name), '-', ' ')
  }

  /** A Ruby Hash from key to tag: its keys in insertion order, and the mapping. */
  datatype TagLookup = TagLookup(keys: seq<string>, table: map<string, Tag>)

  /** The keys are listed once each, and they are exactly the keys of the mapping. */
  ghost predicate WellFormed(h: TagLookup) {
    Distinct(h.keys) &&
    (forall k :: k in h.keys <==> k in h.table)
  }

  /** Hash#store: a new key goes to the end; a present key keeps its place and takes the new tag. */
  function Store(h: TagLookup, k: string, t: Tag): (r: TagLookup)
    ensures r.table == h.table[k := t]
    ensures k in h.table ==> r.keys == h.keys
    ensures k !in h.table ==> r.keys == h.keys + [k]
  {
    if k in h.table then TagLookup(h.keys, h.table[k := t]) else TagLookup(h.keys + [k], h.table[k := t])
  }

  /** The reduce of Tag.lookup over the tags in their database order. */
  function LookupOf(tags: seq<Tag>): (h: TagLookup)
    ensures WellFormed(h)
  {
    if tags == [] then TagLookup([], map[])
    else
      var last := tags[|tags| - 1];
      Store(LookupOf(tags[..|tags| - 1]), Key(last), last)
  }

  /** Every key of the lookup table comes from a tag's name, every tag's key is present,
      and every key maps to a tag filed under that key. */
  lemma {:induction false} LookupOfKeys(tags: seq<Tag>)
    ensures var h := LookupOf(tags);
      (forall i :: 0 <= i < |tags| ==> Key(tags[i]) in h.table) &&
      (forall k :: k in h.table ==> h.table[k] in tags && Key(h.table[k]) == k)
  {
    if tags != [] {
      var init := tags[..|tags| - 1];
      var last := tags[|tags| - 1];
      LookupOfKeys(init);
      var h0 := LookupOf(init);
      var h := LookupOf(tags);
      assert h == Store(h0, Key(last), last);
      forall i | 0 <= i < |tags| ensures Key(tags[i]) in h.table {
        if i < |tags| - 1 {
          assert tags[i] == init[i];
        }
      }
      forall k | k in h.table ensures h.table[k] in tags && Key(h.table[k]) == k {
        if k != Key(last) {
          assert h.table[k] == h0.table[k];
          assert h0.table[k] in init;
        }
      }
    }
  }

  /** The last tag in database order among those sharing a key is the one the key maps to. */
  lemma {:induction false} LookupOfLastWins(tags: seq<Tag>, i: nat)
    requires i < |tags|
    requires forall j :: i < j < |tags| ==> Key(tags[j]) != Key(tags[i])
    ensures var h := LookupOf(tags); Key(tags[i]) in h.table && h.table[Key(tags[i])] == tags[i]
  {
    var init := tags[..|tags| - 1];
    if i < |tags| - 1 {
      forall j | i < j < |init| ensures Key(init[j]) != Key(init[i]) {
        assert init[j] == tags[j];
      }
      LookupOfLastWins(init, i);
      assert init[i] == tags[i];
    }
  }

  /** The key of every tag, in database order. */
  function KeysOf(tags: seq<Tag>): (ks: seq<string>)
    ensures |ks| == |tags|
  {
    seq(|tags|, i requires 0 <= i < |tags| => Key(tags[i]))
  }

  /** `ks` without any occurrence of `k`. */
  function Without(ks: seq<string>, k: string): (r: seq<string>)
    ensures |r| <= |ks|
    ensures forall x :: x in r <==> x in ks && x != k
  {
    if ks == [] then [] else if ks[0] == k then Without(ks[1..], k) else [ks[0]] + Without(ks[1..], k)
  }

  /** Each element once, where it first occurs: the first one, then the rest with it removed. */
  function FirstOccurrences(ks: seq<string>): (r: seq<string>)
    decreases |ks|
  {
    if ks == [] then [] else [ks[0]] + FirstOccurrences(Without(ks[1..], ks[0]))
  }

  lemma {:induction false} WithoutAppend(ks: seq<string>, a: string, k: string)
    ensures Without(ks + [k], a) == Without(ks, a) + (if k == a then [] else [k])
    decreases |ks|
  {
    if ks == [] {
      assert [] + [k] == [k] && [k][1..] == [];
    } else {
      assert (ks + [k])[0] == ks[0] && (ks + [k])[1..] == ks[1..] + [k];
      WithoutAppend(ks[1..], a, k);
    }
  }

  /** Appending an element already present changes nothing; a new one goes to the end. */
  lemma {:induction false} FirstOccurrencesAppend(ks: seq<string>, k: string)
    ensures FirstOccurrences(ks + [k]) ==
      if k in ks then FirstOccurrences(ks) else FirstOccurrences(ks) + [k]
    decreases |ks|
  {
    if ks == [] {
      assert [] + [k] == [k] && [k][1..] == [];
      assert Without([], k) == [];
    } else {
      var a, rest := ks[0], ks[1..];
      assert (ks + [k])[0] == a && (ks + [k])[1..] == rest + [k];
      WithoutAppend(rest, a, k);
      if k != a {
        FirstOccurrencesAppend(Without(rest, a), k);
        assert k in Without(rest, a) <==> k in ks;
        assert FirstOccurrences(ks + [k]) == [a] + FirstOccurrences(Without(rest, a) + [k]);
      } else {
        assert Without(rest, a) + [] == Without(rest, a);
      }
    }
  }

  /** A key is in the table exactly when some tag has it. */
  lemma KeysOfTable(tags: seq<Tag>, k: string)
    ensures k in KeysOf(tags) <==> k in LookupOf(tags).table
  {
    LookupOfKeys(tags);
    var ks := KeysOf(tags);
    if k in LookupOf(tags).table {
      var t := LookupOf(tags).table[k];
      var i :| 0 <= i < |tags| && tags[i] == t;
      assert ks[i] == k;
    }
    if k in ks {
      var i :| 0 <= i < |ks| && ks[i] == k;
      assert Key(tags[i]) in LookupOf(tags).table;
    }
  }

  /** The lookup table lists its keys as the tags' keys with repeats dropped, each where its
      first tag stands in database order. */
  lemma {:induction false} LookupOfKeyOrder(tags: seq<Tag>)
    ensures LookupOf(tags).keys == FirstOccurrences(KeysOf(tags))
  {
    if tags != [] {
      var init := tags[..|tags| - 1];
      var last := tags[|tags| - 1];
      LookupOfKeyOrder(init);
      KeysOfTable(init, Key(last));
      assert KeysOf(tags) == KeysOf(init) + [Key(last)];
      FirstOccurrencesAppend(KeysOf(init), Key(last));
    } else {
      assert KeysOf(tags) == [];
    }
  }

  /** Tag.lookup's class-level memo: `lookup` is None until the first call fills it. */
  class TagClass {
    var lookup: Option<TagLookup>

    constructor ()
      ensures lookup.None?
    {
      lookup := None;
    }

    /** Tag.lookup: `@lookup ||= ...`. A filled memo is returned as it is, even if the tags
        have changed since; otherwise the table is built from `all` and remembered. */
    method Lookup(all: seq<Tag>) returns (h: TagLookup)
      modifies this
      ensures old(lookup).Some? ==> h == old(lookup).value
      ensures old(lookup).None? ==> h == LookupOf(all)
      ensures lookup == Some(h)
    {
      if lookup.Some? {
        return lookup.value;
      }
      var keys: seq<string> := [];
      var table: map<string, Tag> := map[];
      var i := 0;
      while i < |all|
        invariant 0 <= i <= |all|
        invariant TagLookup(keys, table) == LookupOf(all[..i])
      {
        var t := all[i];
        var k := Tr(Downcase(t.name), '-', ' ');
        assert all[..i + 1][..i] == all[..i];
        if k !in table {
          keys := keys + [k];
        }
        table := table[k := t];
        i := i + 1;
      }
      assert all[..i] == all;
      h := TagLookup(keys, table);
      lookup := Some(h);
    }
  }

  // ---------------------------------------------------------------------------
  // Searching

  /** Tag.search_by_name: the query is lowercased but its '-' are left alone. */
  function SearchByName(h: TagLookup, query: string): (r: Option<Tag>)
    ensures r.Some? <==> Downcase(query) in h.table
    ensures r.Some? ==> r.value == h.table[Downcase(query)]
  {
    if Downcase(query) in h.table then Some(h.table[Downcase(query)]) else None
  }

  /** Queries that differ only in case find the same tag. */
  lemma SearchByNameIgnoresCase(h: TagLookup, q1: string, q2: string)
    requires |q1| == |q2| && forall i :: 0 <= i < |q1| ==> LowerChar(q1[i]) == LowerChar(q2[i])
    ensures SearchByName(h, q1) == SearchByName(h, q2)
  {
    assert Downcase(q1) == Downcase(q2);
  }

  /** Over the table built from `tags`, a query finds a tag exactly when some tag's key
      equals the lowercased query, and what it finds is filed under that key. */
  lemma SearchByNameFinds(tags: seq<Tag>, query: string)
    ensures var r := SearchByName(LookupOf(tags), query);
      (r.Some? <==> exists i :: 0 <= i < |tags| && Key(tags[i]) == Downcase(query)) &&
      (r.Some? ==> r.value in tags && Key(r.value) == Downcase(query))
  {
    LookupOfKeys(tags);
    var h := LookupOf(tags);
    if Downcase(query) in h.table {
      var t := h.table[Downcase(query)];
      var i :| 0 <= i < |tags| && tags[i] == t;
      assert Key(tags[i]) == Downcase(query);
    }
  }

  /** A name holding '-' is filed under a key with a space there, which the lowercased name
      never equals: search_by_name does not find a tag by its own hyphenated name. */
  lemma SearchByNameMissesHyphen(tags: seq<Tag>, query: string)
    requires '-' in query
    ensures SearchByName(LookupOf(tags), query).None?
  {
    LookupOfKeys(tags);
    var h := LookupOf(tags);
    var j := IndexOf(query, '-');
    assert Downcase(query)[j] == '-';
  }

  /** The keys, in order, that occur in `text`. */
  function MatchingKeys(keys: seq<string>, text: string): (r: seq<string>)
    ensures forall k :: k in r <==> k in keys && Contains(text, k)
    ensures |r| <= |keys|
  {
    if keys == [] then []
    else if Contains(text, keys[0]) then [keys[0]] + MatchingKeys(keys[1..], text)
    else MatchingKeys(keys[1..], text)
  }

  /** Matching a concatenation matches each part in turn: the matches keep the keys' order. */
  lemma {:induction false} MatchingKeysAppend(a: seq<string>, b: seq<string>, text: string)
    ensures MatchingKeys(a + b, text) == MatchingKeys(a, text) + MatchingKeys(b, text)
  {
    if a != [] {
      assert (a + b)[0] == a[0];
      assert (a + b)[1..] == a[1..] + b;
      MatchingKeysAppend(a[1..], b, text);
    } else {
      assert a + b == b;
    }
  }

  /** A single key is kept exactly when the text contains it. */
  lemma MatchingKeysOne(k: string, text: string)
    ensures MatchingKeys([k], text) == if Contains(text, k) then [k] else []
  {
    assert [k][1..] == [];
  }

  /** Two keys that both occur come back in the keys' order, wherever they stand in the
      text. */
  lemma {:induction false} MatchingKeysFollowKeyOrder(k1: string, k2: string, text: string)
    requires Contains(text, k1) && Contains(text, k2)
    ensures MatchingKeys([k1, k2], text) == [k1, k2]
  {
    assert [k1, k2] == [k1] + [k2];
    MatchingKeysAppend([k1], [k2], text);
    MatchingKeysOne(k1, text);
    MatchingKeysOne(k2, text);
  }

  ghost predicate Distinct<T>(xs: seq<T>) {
    forall i, j :: 0 <= i < j < |xs| ==> xs[i] != xs[j]
  }

  lemma {:induction false} MatchingKeysDistinct(keys: seq<string>, text: string)
    requires Distinct(keys)
    ensures Distinct(MatchingKeys(keys, text))
  {
    if keys != [] {
      var rest := keys[1..];
      assert Distinct(rest) by {
        forall i, j | 0 <= i < j < |rest| ensures rest[i] != rest[j] {
          assert rest[i] == keys[i + 1] && rest[j] == keys[j + 1];
        }
      }
      MatchingKeysDistinct(rest, text);
      var tail := MatchingKeys(rest, text);
      if Contains(text, keys[0]) {
        assert keys[0] !in rest by {
          forall j | 0 <= j < |rest| ensures rest[j] != keys[0] {
            assert rest[j] == keys[j + 1];
          }
        }
        var r := [keys[0]] + tail;
        assert r == MatchingKeys(keys, text);
        forall i, j | 0 <= i < j < |r| ensures r[i] != r[j] {
          assert r[j] == tail[j - 1];
          assert tail[j - 1] in tail;
          if i > 0 {
            assert r[i] == tail[i - 1];
          }
        }
      }
    }
  }

  /** Tag.search_by_names: the tags whose key occurs in the lowercased phrase, in the
      lookup table's key order. */
  function SearchByNames(h: TagLookup, phrase: string): (r: seq<Tag>)
    requires WellFormed(h)
    ensures var ks := MatchingKeys(h.keys, Downcase(phrase));
      |r| == |ks| && forall i :: 0 <= i < |r| ==> r[i] == h.table[ks[i]]
  {
    var ks := MatchingKeys(h.keys, Downcase(phrase));
    seq(|ks|, i requires 0 <= i < |ks| => h.table[ks[i]])
  }

  /** Over the table built from `tags`, search_by_names returns exactly the tags filed under
      a key that occurs in the lowercased phrase. */
  lemma SearchByNamesExact(tags: seq<Tag>, phrase: string, t: Tag)
    ensures var h := LookupOf(tags);
      t in SearchByNames(h, phrase) <==>
        Key(t) in h.table && h.table[Key(t)] == t && Contains(Downcase(phrase), Key(t))
  {
    LookupOfKeys(tags);
    var h := LookupOf(tags);
    var ks := MatchingKeys(h.keys, Downcase(phrase));
    var r := SearchByNames(h, phrase);
    if t in r {
      var i :| 0 <= i < |r| && r[i] == t;
      assert ks[i] in ks;
    }
    if Key(t) in h.table && h.table[Key(t)] == t && Contains(Downcase(phrase), Key(t)) {
      assert Key(t) in ks;
      var i :| 0 <= i < |ks| && ks[i] == Key(t);
      assert r[i] == t;
    }
  }

  /** search_by_names returns each tag once, however often the phrase repeats its name. */
  lemma SearchByNamesDistinct(tags: seq<Tag>, phrase: string)
    ensures Distinct(SearchByNames(LookupOf(tags), phrase))
  {
    LookupOfKeys(tags);
    var h := LookupOf(tags);
    var ks := MatchingKeys(h.keys, Downcase(phrase));
    var r := SearchByNames(h, phrase);
    MatchingKeysDistinct(h.keys, Downcase(phrase));
    forall i, j | 0 <= i < j < |r| ensures r[i] != r[j] {
      assert ks[i] in ks && ks[j] in ks;
      assert ks[i] != ks[j];
      assert Key(r[i]) == ks[i] && Key(r[j]) == ks[j];
    }
  }
}
