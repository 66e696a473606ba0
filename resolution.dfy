/**
 * Column resolution (GetPropertyNames): which property is read from which
 * column, before eligibility is looked at. The column names are upper-cased
 * into a set, indexed by their matching key (the name itself, or the name
 * without underscores under the standard code-style convention), matched
 * against the upper-cased names of the non-ignored properties, and finally
 * overwritten by the explicit bindings.
 */
module Resolution {
  import opened Types
  import opened Text
  import opened Columns

  /** The key under which a (case-folded) column is looked up. */
  function ColumnKey(column: string, useStandardCodeStyle: bool): string
  {
    if useStandardCodeStyle then StripUnderscores(column) else column
  }

  /** Two distinct columns share a key, so the key-to-column dictionary cannot be built. */
  predicate KeysCollide(columns: set<string>, useStandardCodeStyle: bool)
  {
    exists c1, c2 :: c1 in columns && c2 in columns && c1 != c2 &&
      ColumnKey(c1, useStandardCodeStyle) == ColumnKey(c2, useStandardCodeStyle)
  }

  /**
   * `columnNames.ToDictionary(key, p => p)`: maps every key to the column it
   * came from; fails when two distinct upper-cased column names have the same
   * key. Spellings that differ only in case were already merged by the set.
   */
  function ColumnDictionary(columns: set<string>, useStandardCodeStyle: bool): (r: Result<map<string, string>, MapError>)
    ensures r.Err? <==> KeysCollide(columns, useStandardCodeStyle)
    ensures r.Err? ==> r.error == ColumnKeyCollision
    ensures r.Ok? ==> forall k :: k in r.value ==>
      r.value[k] in columns && ColumnKey(r.value[k], useStandardCodeStyle) == k
    ensures r.Ok? ==> forall c :: c in columns ==>
      ColumnKey(c, useStandardCodeStyle) in r.value && r.value[ColumnKey(c, useStandardCodeStyle)] == c
  {
    if KeysCollide(columns, useStandardCodeStyle) then Err(ColumnKeyCollision)
    else Ok(map c | c in columns :: ColumnKey(c, useStandardCodeStyle) := c)
  }

  /** The properties that survive the ignore list, in the order reflection returns them. */
  function Candidates(properties: seq<Property>, ignoreMembers: set<string>): (r: seq<Property>)
    ensures forall p :: p in r <==> p in properties && p.name !in ignoreMembers
  {
    if ignoreMembers == {} then properties else WithoutIgnored(properties, ignoreMembers)
  }

  function WithoutIgnored(properties: seq<Property>, ignoreMembers: set<string>): (r: seq<Property>)
    ensures forall p :: p in r <==> p in properties && p.name !in ignoreMembers
  {
    if properties == [] then []
    else
      var keep := if properties[0].name in ignoreMembers then [] else [properties[0]];
      keep + WithoutIgnored(properties[1..], ignoreMembers)
  }

  /**
   * The (property name, column) pairs of the candidates whose upper-cased
   * name is a key of the column dictionary, in the order reflection returns them.
   */
  function ConventionPairs(candidates: seq<Property>, columnDictionary: map<string, string>): (r: seq<(string, string)>)
    ensures forall pair :: pair in r <==>
      exists p :: p in candidates && Upper(p.name) in columnDictionary &&
        pair == (p.name, columnDictionary[Upper(p.name)])
  {
    if candidates == [] then []
    else
      var p := candidates[0];
      (if Upper(p.name) in columnDictionary then [(p.name, columnDictionary[Upper(p.name)])] else [])
        + ConventionPairs(candidates[1..], columnDictionary)
  }

  /** No two properties share a name (what reflection yields for an ordinary class). */
  predicate DistinctNames(properties: seq<Property>)
  {
    forall i, j :: 0 <= i < j < |properties| ==> properties[i].name != properties[j].name
  }

  predicate DistinctKeys(pairs: seq<(string, string)>)
  {
    forall i, j :: 0 <= i < j < |pairs| ==> pairs[i].0 != pairs[j].0
  }

  /** `ToDictionary` over pairs: fails on the first key seen twice. */
  function ToDictionary(pairs: seq<(string, string)>): (r: Result<map<string, string>, MapError>)
    ensures r.Ok? <==> DistinctKeys(pairs)
    ensures r.Err? ==> r.error == DuplicatePropertyName
    ensures r.Ok? ==> forall i :: 0 <= i < |pairs| ==> pairs[i].0 in r.value && r.value[pairs[i].0] == pairs[i].1
    ensures r.Ok? ==> forall k :: k in r.value ==> exists i :: 0 <= i < |pairs| && pairs[i].0 == k
  {
    if pairs == [] then Ok(map[])
    else
      var n := |pairs| - 1;
      DistinctKeysSnoc(pairs);
      match ToDictionary(pairs[..n])
      case Err(e) => Err(e)
      case Ok(m) =>
        if pairs[n].0 in m then Err(DuplicatePropertyName)
        else Ok(m[pairs[n].0 := pairs[n].1])
  }

  /** The keys of a non-empty list are distinct iff those of its front are and the last key is new. */
  lemma DistinctKeysSnoc(pairs: seq<(string, string)>)
    requires pairs != []
    ensures var n := |pairs| - 1;
      && (forall i :: 0 <= i < n ==> pairs[..n][i] == pairs[i])
      && (DistinctKeys(pairs) <==>
           DistinctKeys(pairs[..n]) && forall i :: 0 <= i < n ==> pairs[i].0 != pairs[n].0)
  {
    var n := |pairs| - 1;
    var front := pairs[..n];
    if DistinctKeys(front) && forall i :: 0 <= i < n ==> pairs[i].0 != pairs[n].0 {
      forall i, j | 0 <= i < j < |pairs| ensures pairs[i].0 != pairs[j].0 {
        if j < n {
          assert front[i] == pairs[i] && front[j] == pairs[j];
        }
      }
    }
    if DistinctKeys(pairs) {
      forall i, j | 0 <= i < j < n ensures front[i].0 != front[j].0 {
        assert front[i] == pairs[i] && front[j] == pairs[j];
      }
    }
  }

  /**
   * The explicit-binding pass: every binding overwrites (or adds) the entry
   * for its key, whatever the convention found; entries for other keys are
   * untouched. Bindings are visited in an unspecified order; their keys are
   * distinct, so the order does not matter.
   */
  method ApplyBindings(dictionary: map<string, string>, bindings: map<string, string>) returns (r: map<string, string>)
    ensures r.Keys == dictionary.Keys + bindings.Keys
    ensures forall k :: k in bindings ==> r[k] == bindings[k]
    ensures forall k :: k in dictionary && k !in bindings ==> r[k] == dictionary[k]
    ensures r == dictionary + bindings
  {
    r := dictionary;
    if bindings != map[] {
      var pending := bindings.Keys;
      while pending != {}
        invariant pending <= bindings.Keys
        invariant r == dictionary + (bindings - pending)
        decreases pending
      {
        var k :| k in pending;
        assert r[k := bindings[k]] == dictionary + (bindings - (pending - {k}));
        r := r[k := bindings[k]];
        pending := pending - {k};
      }
      assert bindings - pending == bindings;
    }
  }

  /** The dictionary built before the binding pass (GetPropertyNames up to line 48). */
  function ConventionMapping(columnNames: seq<string>, properties: seq<Property>, config: CasheConfig): Result<map<string, string>, MapError>
  {
    var columns := ColumnSet(columnNames, Upper);
    match ColumnDictionary(columns, config.useStandardCodeStyleForMembers)
    case Err(e) => Err(e)
    case Ok(columnDictionary) =>
      ToDictionary(ConventionPairs(Candidates(properties, config.ignoreMembers), columnDictionary))
  }

  /** The whole resolution: the convention dictionary overwritten by the bindings. */
  function Resolve(columnNames: seq<string>, properties: seq<Property>, config: CasheConfig): Result<map<string, string>, MapError>
  {
    match ConventionMapping(columnNames, properties, config)
    case Err(e) => Err(e)
    case Ok(d) => Ok(d + config.bindings)
  }

  /** GetPropertyNames: resolves the property-to-column dictionary for one row shape. */
  method GetPropertyNames(columnNames: seq<string>, properties: seq<Property>, config: CasheConfig)
    returns (r: Result<map<string, string>, MapError>)
    ensures r == Resolve(columnNames, properties, config)
    ensures r.Ok? ==> forall k :: k in config.bindings ==> k in r.value && r.value[k] == config.bindings[k]
  {
    var columns := GetUpperCaseColumnNames(columnNames);
    var columnDictionary := ColumnDictionary(columns, config.useStandardCodeStyleForMembers);
    if columnDictionary.Err? {
      return Err(columnDictionary.error);
    }
    var candidates := Candidates(properties, config.ignoreMembers);
    var pairs := ConventionPairs(candidates, columnDictionary.value);
    var dictionary := ToDictionary(pairs);
    if dictionary.Err? {
      return Err(dictionary.error);
    }
    var resolved := ApplyBindings(dictionary.value, config.bindings);
    return Ok(resolved);
  }

  /** A column name matches a property by convention. */
  predicate MatchesByConvention(propertyName: string, column: string, useStandardCodeStyle: bool)
  {
    Upper(propertyName) == ColumnKey(column, useStandardCodeStyle)
  }

  /**
   * Soundness of the convention pass: every entry maps a non-ignored property
   * name to an upper-cased column of the row whose key is the upper-cased
   * property name.
   */
  lemma ConventionEntriesAreMatches(columnNames: seq<string>, properties: seq<Property>, config: CasheConfig)
    requires ConventionMapping(columnNames, properties, config).Ok?
    ensures var d := ConventionMapping(columnNames, properties, config).value;
      forall k :: k in d ==>
        && k !in config.ignoreMembers
        && (exists p :: p in properties && p.name == k)
        && d[k] in ColumnSet(columnNames, Upper)
        && MatchesByConvention(k, d[k], config.useStandardCodeStyleForMembers)
  {
    var columns := ColumnSet(columnNames, Upper);
    var columnDictionary := ColumnDictionary(columns, config.useStandardCodeStyleForMembers).value;
    var pairs := ConventionPairs(Candidates(properties, config.ignoreMembers), columnDictionary);
    var d := ConventionMapping(columnNames, properties, config).value;
    forall k | k in d
      ensures k !in config.ignoreMembers
      ensures exists p :: p in properties && p.name == k
      ensures d[k] in columns
      ensures MatchesByConvention(k, d[k], config.useStandardCodeStyleForMembers)
    {
      var i :| 0 <= i < |pairs| && pairs[i].0 == k;
      assert pairs[i] in pairs;
      var p :| p in Candidates(properties, config.ignoreMembers) && Upper(p.name) in columnDictionary &&
        pairs[i] == (p.name, columnDictionary[Upper(p.name)]);
    }
  }

  /**
   * Completeness of the convention pass: a non-ignored property whose
   * upper-cased name is the key of some upper-cased column gets an entry.
   */
  lemma MatchingPropertiesAreResolved(columnNames: seq<string>, properties: seq<Property>, config: CasheConfig, p: Property, column: string)
    requires ConventionMapping(columnNames, properties, config).Ok?
    requires p in properties && p.name !in config.ignoreMembers
    requires column in ColumnSet(columnNames, Upper)
    requires MatchesByConvention(p.name, column, config.useStandardCodeStyleForMembers)
    ensures var d := ConventionMapping(columnNames, properties, config).value;
      p.name in d && d[p.name] == column
  {
    var columns := ColumnSet(columnNames, Upper);
    var columnDictionary := ColumnDictionary(columns, config.useStandardCodeStyleForMembers).value;
    var pairs := ConventionPairs(Candidates(properties, config.ignoreMembers), columnDictionary);
    assert columnDictionary[Upper(p.name)] == column;
    assert (p.name, column) in pairs;
    var i :| 0 <= i < |pairs| && pairs[i] == (p.name, column);
  }

  /** Members on the ignore list never receive a convention-derived entry. */
  lemma IgnoredMembersGetNoConventionEntry(columnNames: seq<string>, properties: seq<Property>, config: CasheConfig, name: string)
    requires ConventionMapping(columnNames, properties, config).Ok?
    requires name in config.ignoreMembers
    ensures name !in ConventionMapping(columnNames, properties, config).value
  {
    ConventionEntriesAreMatches(columnNames, properties, config);
  }

  /**
   * Under the standard code-style convention the property name is upper-cased
   * but not stripped, while every key is stripped: a property whose name
   * holds an underscore never matches by convention.
   */
  lemma UnderscoredPropertyNeverMatches(columnNames: seq<string>, properties: seq<Property>, config: CasheConfig, name: string)
    requires config.useStandardCodeStyleForMembers
    requires ConventionMapping(columnNames, properties, config).Ok?
    requires '_' in name
    ensures name !in ConventionMapping(columnNames, properties, config).value
  {
    ConventionEntriesAreMatches(columnNames, properties, config);
    UnderscoreSurvivesUpper(name);
  }

  /**
   * Under the standard code-style convention, two distinct columns that are
   * equal once underscores are removed make resolution fail; there is no
   * last-one-wins.
   */
  lemma UnderscoreCollisionFails(columnNames: seq<string>, properties: seq<Property>, config: CasheConfig, i: nat, j: nat)
    requires config.useStandardCodeStyleForMembers
    requires i < |columnNames| && j < |columnNames|
    requires Upper(columnNames[i]) != Upper(columnNames[j])
    requires StripUnderscores(Upper(columnNames[i])) == StripUnderscores(Upper(columnNames[j]))
    ensures Resolve(columnNames, properties, config) == Err(ColumnKeyCollision)
  {
    var columns := ColumnSet(columnNames, Upper);
    assert Upper(columnNames[i]) in columns && Upper(columnNames[j]) in columns;
    assert KeysCollide(columns, true);
  }

  /** Without the convention the key of a column is the column itself, so columns never collide. */
  lemma VerbatimKeysNeverCollide(columns: set<string>)
    ensures ColumnDictionary(columns, false).Ok?
    ensures forall c :: c in columns ==> ColumnDictionary(columns, false).value[c] == c
  {
  }

  /**
   * The explicit bindings are applied last and unconditionally: each binding
   * is in the result, even for an ignored member, a column the row lacks, or
   * a name that is not a property; every other entry is the convention's.
   */
  lemma BindingsOverrideConvention(columnNames: seq<string>, properties: seq<Property>, config: CasheConfig)
    requires ConventionMapping(columnNames, properties, config).Ok?
    ensures Resolve(columnNames, properties, config).Ok?
    ensures var m := Resolve(columnNames, properties, config).value;
      var d := ConventionMapping(columnNames, properties, config).value;
      && m.Keys == d.Keys + config.bindings.Keys
      && (forall k :: k in config.bindings ==> m[k] == config.bindings[k])
      && (forall k :: k in d && k !in config.bindings ==> m[k] == d[k])
  {
  }

  /** A property takes part in the convention pass: it is not ignored and its upper-cased name is a key. */
  predicate Matched(p: Property, ignoreMembers: set<string>, columnDictionary: map<string, string>)
  {
    p.name !in ignoreMembers && Upper(p.name) in columnDictionary
  }

  /**
   * Two properties at distinct positions share a name and take part in the
   * convention pass (a property redeclared with `new` is listed by reflection
   * next to the one it hides, under the same name).
   */
  predicate SharedMatchedName(properties: seq<Property>, ignoreMembers: set<string>, columnDictionary: map<string, string>)
  {
    exists i, j :: 0 <= i < j < |properties| && properties[i].name == properties[j].name &&
      Matched(properties[i], ignoreMembers, columnDictionary)
  }

  /**
   * Resolution fails exactly when two distinct upper-cased column names share
   * a key, or two non-ignored properties that match a column share a name.
   */
  lemma ResolveFailsOnlyOnDuplicates(columnNames: seq<string>, properties: seq<Property>, config: CasheConfig)
    ensures var columns := ColumnSet(columnNames, Upper);
      var useStd := config.useStandardCodeStyleForMembers;
      Resolve(columnNames, properties, config).Err? <==>
        || KeysCollide(columns, useStd)
        || SharedMatchedName(properties, config.ignoreMembers, ColumnDictionary(columns, useStd).value)
  {
    var columns := ColumnSet(columnNames, Upper);
    var useStd := config.useStandardCodeStyleForMembers;
    if !KeysCollide(columns, useStd) {
      if config.ignoreMembers == {} {
        NothingIgnored(properties);
      }
      PairsDistinctIffNoSharedName(properties, config.ignoreMembers, ColumnDictionary(columns, useStd).value);
    }
  }

  /** With an empty ignore list the filter keeps every property. */
  lemma {:induction false} NothingIgnored(properties: seq<Property>)
    ensures WithoutIgnored(properties, {}) == properties
  {
    if properties != [] {
      NothingIgnored(properties[1..]);
      assert properties == [properties[0]] + properties[1..];
    }
  }

  /** The convention pairs have distinct keys exactly when no two matched properties share a name. */
  lemma {:induction false} PairsDistinctIffNoSharedName(properties: seq<Property>, ignoreMembers: set<string>, columnDictionary: map<string, string>)
    ensures DistinctKeys(ConventionPairs(WithoutIgnored(properties, ignoreMembers), columnDictionary)) <==>
      !SharedMatchedName(properties, ignoreMembers, columnDictionary)
  {
    if properties != [] {
      var head := properties[0];
      var tail := properties[1..];
      PairsDistinctIffNoSharedName(tail, ignoreMembers, columnDictionary);
      PairsCons(properties, ignoreMembers, columnDictionary);
      SharedCons(properties, ignoreMembers, columnDictionary);
      var pairs := ConventionPairs(WithoutIgnored(properties, ignoreMembers), columnDictionary);
      var rest := ConventionPairs(WithoutIgnored(tail, ignoreMembers), columnDictionary);
      if Matched(head, ignoreMembers, columnDictionary) {
        var first := (head.name, columnDictionary[Upper(head.name)]);
        assert pairs == [first] + rest;
        DistinctKeysCons(first, rest);
        LaterKeyIffLaterName(tail, ignoreMembers, columnDictionary, head.name);
        assert (forall pair :: pair in rest ==> pair.0 != first.0) <==> !exists q :: q in tail && q.name == head.name;
      } else {
        assert pairs == rest;
      }
    }
  }

  /** The convention pairs of a non-empty list: the head's pair, if it matches, then the tail's. */
  lemma PairsCons(properties: seq<Property>, ignoreMembers: set<string>, columnDictionary: map<string, string>)
    requires properties != []
    ensures var head := properties[0];
      ConventionPairs(WithoutIgnored(properties, ignoreMembers), columnDictionary) ==
        (if Matched(head, ignoreMembers, columnDictionary) then [(head.name, columnDictionary[Upper(head.name)])] else [])
          + ConventionPairs(WithoutIgnored(properties[1..], ignoreMembers), columnDictionary)
  {
    var head := properties[0];
    var rest := WithoutIgnored(properties[1..], ignoreMembers);
    if head.name !in ignoreMembers {
      var c := [head] + rest;
      assert WithoutIgnored(properties, ignoreMembers) == c;
      assert c[0] == head && c[1..] == rest;
    } else {
      assert WithoutIgnored(properties, ignoreMembers) == rest;
    }
  }

  /** The keys of a list with a head in front are distinct iff the rest's are and the head's key is new. */
  lemma DistinctKeysCons(head: (string, string), rest: seq<(string, string)>)
    ensures DistinctKeys([head] + rest) <==>
      DistinctKeys(rest) && forall pair :: pair in rest ==> pair.0 != head.0
  {
    var c := [head] + rest;
    if DistinctKeys(rest) && forall pair :: pair in rest ==> pair.0 != head.0 {
      forall i, j | 0 <= i < j < |c| ensures c[i].0 != c[j].0 {
        assert c[j] == rest[j - 1];
        if i > 0 {
          assert c[i] == rest[i - 1];
        } else {
          assert rest[j - 1] in rest;
        }
      }
    }
    if DistinctKeys(c) {
      forall pair | pair in rest ensures pair.0 != head.0 {
        var k :| 0 <= k < |rest| && rest[k] == pair;
        assert c[k + 1] == pair && c[0] == head;
      }
      forall i, j | 0 <= i < j < |rest| ensures rest[i].0 != rest[j].0 {
        assert c[i + 1] == rest[i] && c[j + 1] == rest[j];
      }
    }
  }

  /** A matched name is a key of the pairs iff some property carries it. */
  lemma LaterKeyIffLaterName(properties: seq<Property>, ignoreMembers: set<string>, columnDictionary: map<string, string>, name: string)
    requires name !in ignoreMembers && Upper(name) in columnDictionary
    ensures var pairs := ConventionPairs(WithoutIgnored(properties, ignoreMembers), columnDictionary);
      (exists pair :: pair in pairs && pair.0 == name) <==> (exists p :: p in properties && p.name == name)
  {
    var candidates := WithoutIgnored(properties, ignoreMembers);
    var pairs := ConventionPairs(candidates, columnDictionary);
    if pair :| pair in pairs && pair.0 == name {
      var p :| p in candidates && Upper(p.name) in columnDictionary && pair == (p.name, columnDictionary[Upper(p.name)]);
      assert p in properties && p.name == name;
    }
    if p :| p in properties && p.name == name {
      assert p in candidates;
      var pair := (p.name, columnDictionary[Upper(p.name)]);
      assert pair in pairs && pair.0 == name;
    }
  }

  /** A shared matched name either involves the head or lies entirely in the tail. */
  lemma SharedCons(properties: seq<Property>, ignoreMembers: set<string>, columnDictionary: map<string, string>)
    requires properties != []
    ensures var head := properties[0];
      var tail := properties[1..];
      SharedMatchedName(properties, ignoreMembers, columnDictionary) <==>
        || (Matched(head, ignoreMembers, columnDictionary) && exists q :: q in tail && q.name == head.name)
        || SharedMatchedName(tail, ignoreMembers, columnDictionary)
  {
    var head := properties[0];
    var tail := properties[1..];
    if SharedMatchedName(properties, ignoreMembers, columnDictionary) {
      SharedSplit(properties, ignoreMembers, columnDictionary);
    }
    if Matched(head, ignoreMembers, columnDictionary) && exists q :: q in tail && q.name == head.name {
      var q :| q in tail && q.name == head.name;
      SharedWithHead(properties, ignoreMembers, columnDictionary, q);
    }
    if SharedMatchedName(tail, ignoreMembers, columnDictionary) {
      SharedInTail(properties, ignoreMembers, columnDictionary);
    }
  }

  lemma SharedSplit(properties: seq<Property>, ignoreMembers: set<string>, columnDictionary: map<string, string>)
    requires properties != []
    requires SharedMatchedName(properties, ignoreMembers, columnDictionary)
    ensures var head := properties[0];
      var tail := properties[1..];
      || (Matched(head, ignoreMembers, columnDictionary) && exists q :: q in tail && q.name == head.name)
      || SharedMatchedName(tail, ignoreMembers, columnDictionary)
  {
    var tail := properties[1..];
    var i, j :| 0 <= i < j < |properties| && properties[i].name == properties[j].name &&
      Matched(properties[i], ignoreMembers, columnDictionary);
    assert tail[j - 1] == properties[j];
    if i > 0 {
      assert tail[i - 1] == properties[i];
    }
  }

  lemma SharedWithHead(properties: seq<Property>, ignoreMembers: set<string>, columnDictionary: map<string, string>, q: Property)
    requires properties != []
    requires Matched(properties[0], ignoreMembers, columnDictionary)
    requires q in properties[1..] && q.name == properties[0].name
    ensures SharedMatchedName(properties, ignoreMembers, columnDictionary)
  {
    var tail := properties[1..];
    var j :| 0 <= j < |tail| && tail[j] == q;
    assert properties[j + 1] == q;
  }

  lemma SharedInTail(properties: seq<Property>, ignoreMembers: set<string>, columnDictionary: map<string, string>)
    requires properties != []
    requires SharedMatchedName(properties[1..], ignoreMembers, columnDictionary)
    ensures SharedMatchedName(properties, ignoreMembers, columnDictionary)
  {
    var tail := properties[1..];
    var i, j :| 0 <= i < j < |tail| && tail[i].name == tail[j].name &&
      Matched(tail[i], ignoreMembers, columnDictionary);
    assert properties[i + 1] == tail[i] && properties[j + 1] == tail[j];
  }

  /** With distinct property names and no key collision, resolution succeeds. */
  lemma DistinctNamesResolve(columnNames: seq<string>, properties: seq<Property>, config: CasheConfig)
    requires DistinctNames(properties)
    requires !KeysCollide(ColumnSet(columnNames, Upper), config.useStandardCodeStyleForMembers)
    ensures Resolve(columnNames, properties, config).Ok?
  {
    ResolveFailsOnlyOnDuplicates(columnNames, properties, config);
  }
}
