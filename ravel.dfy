/**
 * `ravel_dictionary` of `object/dict/common.py`: flattening a dictionary
 * whose values may themselves be dictionaries into a single dictionary of
 * the non-dictionary values, visiting entries in ascending key order and
 * settling repeated keys by a conflict rule.
 *
 * A dictionary is the sequence of its key/value pairs (its `items()`); keys
 * are strings, compared as Python compares them (code point by code point,
 * a proper prefix first). The result is a map, since the order of a
 * dictionary's entries plays no part in dictionary equality.
 */
module DictRavel {
  import opened Outcomes
  import opened Sorting

  /** A dictionary value: an atom, or a nested dictionary given by its items. */
  datatype Value<A> = Leaf(atom: A) | Nested(items: seq<(string, Value<A>)>)

  /** The conflict rules. */
  datatype Conflict = Raise | Superior | Inferior

  /** Python's `str.lower` on one character, for the ASCII letters. */
  function LowerChar(c: char): (d: char)
    ensures !('A' <= d <= 'Z')
    ensures !('A' <= c <= 'Z') ==> d == c
  {
    if 'A' <= c <= 'Z' then (c as int + 32) as char else c
  }

  /** Python's `str.lower`, for the ASCII letters. */
  function Lower(s: string): (r: string)
    ensures |r| == |s|
    ensures forall i :: 0 <= i < |s| ==> r[i] == LowerChar(s[i])
  {
    seq(|s|, i requires 0 <= i < |s| => LowerChar(s[i]))
  }

  /** Lower-casing twice is lower-casing once. */
  lemma LowerIdempotent(s: string)
    ensures Lower(Lower(s)) == Lower(s)
  {
    assert forall i :: 0 <= i < |s| ==> LowerChar(LowerChar(s[i])) == LowerChar(s[i]);
  }

  /**
   * The conflict argument, lower-cased and checked: anything but `raise`,
   * `superior` or `inferior` in any letter case raises InputError.
   */
  function ParseConflict(conflict: string): (r: Result<Conflict>)
    ensures r.Err? <==> Lower(conflict) !in {"raise", "superior", "inferior"}
    ensures r.Err? ==> r.fault == InputError
    ensures r == Ok(Raise) <==> Lower(conflict) == "raise"
    ensures r == Ok(Superior) <==> Lower(conflict) == "superior"
    ensures r == Ok(Inferior) <==> Lower(conflict) == "inferior"
  {
    var rule := Lower(conflict);
    if rule == "raise" then Ok(Raise)
    else if rule == "superior" then Ok(Superior)
    else if rule == "inferior" then Ok(Inferior)
    else Err(InputError)
  }

  /** The check is insensitive to letter case: lower-casing first changes nothing. */
  lemma ParseConflictCaseless(conflict: string)
    ensures ParseConflict(Lower(conflict)) == ParseConflict(conflict)
  {
    LowerIdempotent(conflict);
  }

  /** Python's `a <= b` on strings. */
  predicate KeyAtMost(a: string, b: string) {
    a == [] || (b != [] && (a[0] < b[0] || (a[0] == b[0] && KeyAtMost(a[1..], b[1..]))))
  }

  lemma {:induction false} KeyAtMostTotal(a: string, b: string)
    ensures KeyAtMost(a, b) || KeyAtMost(b, a)
  {
    if a != [] && b != [] && a[0] == b[0] {
      KeyAtMostTotal(a[1..], b[1..]);
    }
  }

  lemma {:induction false} KeyAtMostTransitive(a: string, b: string, c: string)
    requires KeyAtMost(a, b) && KeyAtMost(b, c)
    ensures KeyAtMost(a, c)
  {
    if a != [] && a[0] == b[0] && b[0] == c[0] {
      KeyAtMostTransitive(a[1..], b[1..], c[1..]);
    }
  }

  /** Neighbouring items are in ascending key order. */
  predicate KeySorted<V>(s: seq<(string, V)>) {
    forall i :: 0 <= i < |s| - 1 ==> KeyAtMost(s[i].0, s[i + 1].0)
  }

  /** No key occurs twice, as in every Python dictionary. */
  predicate DistinctKeys<V>(s: seq<(string, V)>) {
    forall i, j :: 0 <= i < j < |s| ==> s[i].0 != s[j].0
  }

  /** Inserts an item before the first item whose key is not below its own. */
  function InsertItem<V>(x: (string, V), s: seq<(string, V)>): (r: seq<(string, V)>)
    requires KeySorted(s)
    ensures |r| == |s| + 1
    ensures multiset(r) == multiset(s) + multiset{x}
    ensures KeySorted(r)
    ensures r[0] == x || (s != [] && r[0] == s[0])
  {
    if s == [] then [x]
    else if KeyAtMost(x.0, s[0].0) then [x] + s
    else
      var t := InsertItem(x, s[1..]);
      KeyAtMostTotal(x.0, s[0].0);
      assert s == [s[0]] + s[1..];
      [s[0]] + t
  }

  /** `sorted(dictionary.items())`: the items in ascending key order. */
  function SortItems<V>(s: seq<(string, V)>): (r: seq<(string, V)>)
    ensures |r| == |s|
    ensures multiset(r) == multiset(s)
    ensures KeySorted(r)
    ensures forall j :: 0 <= j < |r| ==> r[j] in s
  {
    if s == [] then []
    else
      assert s == [s[0]] + s[1..];
      var r := InsertItem(s[0], SortItems(s[1..]));
      assert forall j :: 0 <= j < |r| ==> r[j] in s by {
        forall j | 0 <= j < |r| ensures r[j] in s {
          assert r[j] in multiset(r);
        }
      }
      r
  }

  /** Distinct keys are a property of the multiset of items. */
  lemma DistinctKeysPermutation<V>(a: seq<(string, V)>, b: seq<(string, V)>)
    requires DistinctKeys(a) && multiset(a) == multiset(b)
    ensures DistinctKeys(b)
  {
    assert Distinct(a);
    DistinctMultiplicity(a);
    forall i, j | 0 <= i < j < |b| ensures b[i].0 != b[j].0 {
      if b[i] == b[j] {
        TwoPositions(b, i, j);
      }
    }
  }

  /** Adjacent order gives order between any two positions. */
  lemma {:induction false} KeySortedPairwise<V>(s: seq<(string, V)>, i: int, j: int)
    requires KeySorted(s) && 0 <= i <= j < |s|
    ensures KeyAtMost(s[i].0, s[j].0)
    decreases j - i
  {
    if i == j {
      KeyAtMostReflexive(s[i].0);
    } else {
      KeySortedPairwise(s, i + 1, j);
      KeyAtMostTransitive(s[i].0, s[i + 1].0, s[j].0);
    }
  }

  lemma {:induction false} KeyAtMostReflexive(a: string)
    ensures KeyAtMost(a, a)
  {
    if a != [] {
      KeyAtMostReflexive(a[1..]);
    }
  }

  /**
   * Combining the entries collected so far with the entries a new item
   * produced. A shared key raises DataError under `raise`; otherwise the
   * union is taken, and on a shared key the collected value is kept under
   * `superior` and replaced under `inferior`.
   */
  function Merge<A>(collected: map<string, A>, produced: map<string, A>, rule: Conflict): (r: Result<map<string, A>>)
    ensures r.Err? <==> rule == Raise && !(collected.Keys !! produced.Keys)
    ensures r.Err? ==> r.fault == DataError
    ensures r.Ok? ==> r.value.Keys == collected.Keys + produced.Keys
    ensures r.Ok? ==> forall k :: k in collected && (k !in produced || rule != Inferior) ==> r.value[k] == collected[k]
    ensures r.Ok? ==> forall k :: k in produced && (k !in collected || rule == Inferior) ==> r.value[k] == produced[k]
  {
    if !(collected.Keys !! produced.Keys) then
      match rule
      case Raise => Err(DataError)
      case Superior => Ok(produced + collected)
      case Inferior => Ok(collected + produced)
    else
      Ok(produced + collected)
  }

  /** The entries of a dictionary, raveled under a rule: the fold over its sorted items from an empty result. */
  function Ravel<A>(d: Value<A>, rule: Conflict): Result<map<string, A>>
    requires d.Nested?
    decreases d, 1
  {
    RavelFold(d, SortItems(d.items), map[], rule)
  }

  /** What one item contributes: a nested dictionary its raveled entries, an atom its own entry. */
  function Produced<A>(parent: Value<A>, item: (string, Value<A>), rule: Conflict): Result<map<string, A>>
    requires parent.Nested? && item in parent.items
    decreases parent, 0, 0
  {
    if item.1.Nested? then Ravel(item.1, rule) else Ok(map[item.0 := item.1.atom])
  }

  /** The fold over the remaining items `rest` of `parent`, with the entries collected so far. */
  function RavelFold<A>(parent: Value<A>, rest: seq<(string, Value<A>)>, collected: map<string, A>, rule: Conflict)
    : Result<map<string, A>>
    requires parent.Nested?
    requires forall j :: 0 <= j < |rest| ==> rest[j] in parent.items
    decreases parent, 0, |rest| + 1
  {
    if rest == [] then Ok(collected)
    else
      var produced := Produced(parent, rest[0], rule);
      if produced.Err? then produced
      else
        var merged := Merge(collected, produced.value, rule);
        if merged.Err? then merged
        else RavelFold(parent, rest[1..], merged.value, rule)
  }

  /**
   * `ravel_dictionary`. The conflict argument is lower-cased and checked
   * before anything else; then the items are visited in ascending key
   * order, a nested dictionary being raveled recursively (with the
   * lower-cased argument) and an atom standing for its own entry, and each
   * contribution is merged into the result under the rule.
   */
  method RavelDictionary<A>(dictionary: Value<A>, conflict: string) returns (r: Result<map<string, A>>)
    requires dictionary.Nested?
    ensures ParseConflict(conflict).Err? ==> r == Err(InputError)
    ensures ParseConflict(conflict).Ok? ==> r == Ravel(dictionary, ParseConflict(conflict).value)
    decreases dictionary
  {
    var lowered := Lower(conflict);
    ParseConflictCaseless(conflict);
    var parsed := ParseConflict(lowered);
    if parsed.Err? {
      return Err(InputError);
    }
    var rule := parsed.value;
    var sorted := SortItems(dictionary.items);
    var raveled: map<string, A> := map[];
    var i := 0;
    while i < |sorted|
      invariant 0 <= i <= |sorted|
      invariant RavelFold(dictionary, sorted[i..], raveled, rule) == Ravel(dictionary, rule)
    {
      var (key, item) := sorted[i];
      assert sorted[i] in dictionary.items;
      var produced: map<string, A>;
      if item.Nested? {
        var sub := RavelDictionary(item, lowered);
        if sub.Err? {
          return sub;
        }
        produced := sub.value;
      } else {
        produced := map[key := item.atom];
      }
      assert Produced(dictionary, sorted[i], rule) == Ok(produced);
      if !(raveled.Keys !! produced.Keys) {
        if rule == Raise {
          return Err(DataError);
        } else if rule == Superior {
          raveled := produced + raveled;
        } else {
          raveled := raveled + produced;
        }
      } else {
        raveled := produced + raveled;
      }
      assert sorted[i..][1..] == sorted[i + 1..];
      i := i + 1;
    }
    return Ok(raveled);
  }

  /** The atoms of a dictionary with their keys, at every depth, in the order the fold visits them. */
  function LeafPairs<A>(d: Value<A>): seq<(string, A)>
    requires d.Nested?
    decreases d, 1
  {
    LeafPairsOf(d, SortItems(d.items))
  }

  function LeafPairsOf<A>(parent: Value<A>, rest: seq<(string, Value<A>)>): seq<(string, A)>
    requires parent.Nested?
    requires forall j :: 0 <= j < |rest| ==> rest[j] in parent.items
    decreases parent, 0, |rest|
  {
    if rest == [] then []
    else
      assert rest[0] in parent.items;
      (if rest[0].1.Nested? then LeafPairs(rest[0].1) else [(rest[0].0, rest[0].1.atom)])
      + LeafPairsOf(parent, rest[1..])
  }

  /** The dictionary built from pairs, a later pair overriding an earlier one. */
  function MapOf<A>(pairs: seq<(string, A)>): map<string, A>
  {
    if pairs == [] then map[] else map[pairs[0].0 := pairs[0].1] + MapOf(pairs[1..])
  }

  /** The keys of the dictionary built from pairs are exactly the keys of the pairs. */
  lemma {:induction false} MapOfKeys<A>(pairs: seq<(string, A)>, k: string)
    ensures k in MapOf(pairs) <==> exists i :: 0 <= i < |pairs| && pairs[i].0 == k
  {
    if pairs != [] {
      MapOfKeys(pairs[1..], k);
      if k in MapOf(pairs[1..]) {
        var i :| 0 <= i < |pairs[1..]| && pairs[1..][i].0 == k;
        assert pairs[i + 1].0 == k;
      }
      if exists i :: 0 <= i < |pairs| && pairs[i].0 == k {
        var i :| 0 <= i < |pairs| && pairs[i].0 == k;
        if i > 0 {
          assert pairs[1..][i - 1].0 == k;
        }
      }
    }
  }

  /** Building from a concatenation is the union, the later part overriding. */
  lemma {:induction false} MapOfConcat<A>(p: seq<(string, A)>, q: seq<(string, A)>)
    ensures MapOf(p + q) == MapOf(p) + MapOf(q)
  {
    if p == [] {
      assert p + q == q;
    } else {
      assert (p + q)[1..] == p[1..] + q;
      MapOfConcat(p[1..], q);
      var head := map[p[0].0 := p[0].1];
      var a, b := MapOf(p[1..]), MapOf(q);
      assert MapOf(p + q) == head + (a + b);
      MapUnionAssociative(head, a, b);
    }
  }

  lemma MapUnionEmpty<A>(x: map<string, A>)
    ensures map[] + x == x
  {
  }

  lemma MapUnionDisjoint<A>(x: map<string, A>, y: map<string, A>)
    requires x.Keys !! y.Keys
    ensures x + y == y + x
  {
  }

  lemma MapUnionAssociative<A>(x: map<string, A>, y: map<string, A>, z: map<string, A>)
    ensures x + (y + z) == (x + y) + z
  {
  }

  /** With distinct keys, every pair is found in the dictionary built from them. */
  lemma {:induction false} MapOfAt<A>(pairs: seq<(string, A)>, i: int)
    requires DistinctKeys(pairs) && 0 <= i < |pairs|
    ensures pairs[i].0 in MapOf(pairs) && MapOf(pairs)[pairs[i].0] == pairs[i].1
  {
    var head := map[pairs[0].0 := pairs[0].1];
    assert MapOf(pairs) == head + MapOf(pairs[1..]);
    if i > 0 {
      assert pairs[1..][i - 1] == pairs[i];
      MapOfAt(pairs[1..], i - 1);
    } else {
      MapOfKeys(pairs[1..], pairs[0].0);
    }
  }

  lemma DistinctKeysSplit<A>(p: seq<(string, A)>, q: seq<(string, A)>)
    requires DistinctKeys(p + q)
    ensures DistinctKeys(p) && DistinctKeys(q)
    ensures forall i, j :: 0 <= i < |p| && 0 <= j < |q| ==> p[i].0 != q[j].0
  {
    assert forall i :: 0 <= i < |p| ==> (p + q)[i] == p[i];
    assert forall j :: 0 <= j < |q| ==> (p + q)[|p| + j] == q[j];
  }

  /**
   * When no key occurs twice among the atoms at any depth, raveling never
   * meets a conflict, and under every rule the result is the dictionary of
   * all atoms with their keys.
   */
  lemma {:induction false} RavelNoOverlap<A>(d: Value<A>, rule: Conflict)
    requires d.Nested?
    requires DistinctKeys(LeafPairs(d))
    ensures Ravel(d, rule) == Ok(MapOf(LeafPairs(d)))
    decreases d, 1
  {
    var sorted := SortItems(d.items);
    var m: map<string, A> := map[];
    assert LeafPairs(d) == LeafPairsOf(d, sorted);
    assert Ravel(d, rule) == RavelFold(d, sorted, m, rule);
    RavelFoldNoOverlap(d, sorted, m, rule);
    MapUnionEmpty(MapOf(LeafPairsOf(d, sorted)));
  }

  lemma {:induction false} RavelFoldNoOverlap<A>(parent: Value<A>, rest: seq<(string, Value<A>)>,
                                                  collected: map<string, A>, rule: Conflict)
    requires parent.Nested?
    requires forall j :: 0 <= j < |rest| ==> rest[j] in parent.items
    requires DistinctKeys(LeafPairsOf(parent, rest))
    requires forall k :: k in collected ==> k !in MapOf(LeafPairsOf(parent, rest))
    ensures RavelFold(parent, rest, collected, rule) == Ok(collected + MapOf(LeafPairsOf(parent, rest)))
    decreases parent, 0, |rest|
  {
    if rest == [] {
      assert collected + map[] == collected;
    } else {
      var item := rest[0];
      assert item in parent.items;
      var head := if item.1.Nested? then LeafPairs(item.1) else [(item.0, item.1.atom)];
      var tail := LeafPairsOf(parent, rest[1..]);
      assert LeafPairsOf(parent, rest) == head + tail;
      DistinctKeysSplit(head, tail);
      MapOfConcat(head, tail);
      if item.1.Nested? {
        RavelNoOverlap(item.1, rule);
      } else {
        assert MapOf(head) == map[item.0 := item.1.atom];
      }
      assert Produced(parent, item, rule) == Ok(MapOf(head));
      var grown := collected + MapOf(head);
      RavelFoldStep(parent, rest, collected, MapOf(head), rule);
      forall k | k in grown ensures k !in MapOf(tail) {
        if k in MapOf(head) && k in MapOf(tail) {
          MapOfKeys(head, k);
          MapOfKeys(tail, k);
          assert false;
        }
      }
      RavelFoldNoOverlap(parent, rest[1..], grown, rule);
      MapUnionAssociative(collected, MapOf(head), MapOf(tail));
    }
  }

  /** A contribution whose keys are all new is merged as a plain union under every rule. */
  lemma RavelFoldStep<A>(parent: Value<A>, rest: seq<(string, Value<A>)>, collected: map<string, A>,
                         produced: map<string, A>, rule: Conflict)
    requires parent.Nested? && rest != []
    requires forall j :: 0 <= j < |rest| ==> rest[j] in parent.items
    requires Produced(parent, rest[0], rule) == Ok(produced)
    requires collected.Keys !! produced.Keys
    ensures RavelFold(parent, rest, collected, rule) == RavelFold(parent, rest[1..], collected + produced, rule)
  {
    MapUnionDisjoint(collected, produced);
    assert Merge(collected, produced, rule) == Ok(collected + produced);
  }

  /** A merge under `inferior` is the union with the produced values winning, shared key or not. */
  lemma MergeInferior<A>(collected: map<string, A>, produced: map<string, A>)
    ensures Merge(collected, produced, Inferior) == Ok(collected + produced)
  {
    if collected.Keys !! produced.Keys {
      MapUnionDisjoint(collected, produced);
    }
  }

  /**
   * Under `inferior`, for every dictionary, the result is the dictionary
   * built from the atoms in visit order with the later atom of a key
   * overriding the earlier one: the entry visited last wins, whatever its
   * depth.
   */
  lemma {:induction false} RavelInferior<A>(d: Value<A>)
    requires d.Nested?
    ensures Ravel(d, Inferior) == Ok(MapOf(LeafPairs(d)))
    decreases d, 1
  {
    var sorted := SortItems(d.items);
    var none: map<string, A> := map[];
    assert LeafPairs(d) == LeafPairsOf(d, sorted);
    RavelFoldInferior(d, sorted, none);
    MapUnionEmpty(MapOf(LeafPairsOf(d, sorted)));
  }

  lemma {:induction false} RavelFoldInferior<A>(parent: Value<A>, rest: seq<(string, Value<A>)>, collected: map<string, A>)
    requires parent.Nested?
    requires forall j :: 0 <= j < |rest| ==> rest[j] in parent.items
    ensures RavelFold(parent, rest, collected, Inferior) == Ok(collected + MapOf(LeafPairsOf(parent, rest)))
    decreases parent, 0, |rest|
  {
    if rest == [] {
      assert collected + map[] == collected;
    } else {
      var item := rest[0];
      assert item in parent.items;
      var head := if item.1.Nested? then LeafPairs(item.1) else [(item.0, item.1.atom)];
      var tail := LeafPairsOf(parent, rest[1..]);
      assert LeafPairsOf(parent, rest) == head + tail;
      MapOfConcat(head, tail);
      if item.1.Nested? {
        RavelInferior(item.1);
      } else {
        assert MapOf(head) == map[item.0 := item.1.atom];
      }
      assert Produced(parent, item, Inferior) == Ok(MapOf(head));
      MergeInferior(collected, MapOf(head));
      RavelFoldInferior(parent, rest[1..], collected + MapOf(head));
      MapUnionAssociative(collected, MapOf(head), MapOf(tail));
    }
  }

  /** The dictionary built from pairs, an earlier pair overriding a later one. */
  function MapOfFirst<A>(pairs: seq<(string, A)>): map<string, A>
  {
    if pairs == [] then map[] else MapOfFirst(pairs[1..]) + map[pairs[0].0 := pairs[0].1]
  }

  /** Both ways of building a dictionary from pairs give the same keys. */
  lemma {:induction false} MapOfFirstKeys<A>(pairs: seq<(string, A)>)
    ensures MapOfFirst(pairs).Keys == MapOf(pairs).Keys
  {
    if pairs != [] {
      MapOfFirstKeys(pairs[1..]);
    }
  }

  /** Building first-wins from a concatenation is the union, the earlier part overriding. */
  lemma {:induction false} MapOfFirstConcat<A>(p: seq<(string, A)>, q: seq<(string, A)>)
    ensures MapOfFirst(p + q) == MapOfFirst(q) + MapOfFirst(p)
  {
    if p == [] {
      assert p + q == q;
      assert MapOfFirst(q) + map[] == MapOfFirst(q);
    } else {
      assert (p + q)[1..] == p[1..] + q;
      MapOfFirstConcat(p[1..], q);
      var head := map[p[0].0 := p[0].1];
      MapUnionAssociative(MapOfFirst(q), MapOfFirst(p[1..]), head);
    }
  }

  /** A merge under `superior` is the union with the collected values winning, shared key or not. */
  lemma MergeSuperior<A>(collected: map<string, A>, produced: map<string, A>)
    ensures Merge(collected, produced, Superior) == Ok(produced + collected)
  {
  }

  /**
   * Under `superior`, for every dictionary, the result is the dictionary
   * built from the atoms in visit order with the earlier atom of a key
   * overriding the later one: the entry visited first wins, whatever its
   * depth.
   */
  lemma {:induction false} RavelSuperior<A>(d: Value<A>)
    requires d.Nested?
    ensures Ravel(d, Superior) == Ok(MapOfFirst(LeafPairs(d)))
    decreases d, 1
  {
    var sorted := SortItems(d.items);
    var none: map<string, A> := map[];
    assert LeafPairs(d) == LeafPairsOf(d, sorted);
    RavelFoldSuperior(d, sorted, none);
    assert MapOfFirst(LeafPairsOf(d, sorted)) + none == MapOfFirst(LeafPairsOf(d, sorted));
  }

  lemma {:induction false} RavelFoldSuperior<A>(parent: Value<A>, rest: seq<(string, Value<A>)>, collected: map<string, A>)
    requires parent.Nested?
    requires forall j :: 0 <= j < |rest| ==> rest[j] in parent.items
    ensures RavelFold(parent, rest, collected, Superior) == Ok(MapOfFirst(LeafPairsOf(parent, rest)) + collected)
    decreases parent, 0, |rest|
  {
    if rest == [] {
      assert map[] + collected == collected;
    } else {
      var item := rest[0];
      assert item in parent.items;
      var head := if item.1.Nested? then LeafPairs(item.1) else [(item.0, item.1.atom)];
      var tail := LeafPairsOf(parent, rest[1..]);
      assert LeafPairsOf(parent, rest) == head + tail;
      MapOfFirstConcat(head, tail);
      if item.1.Nested? {
        RavelSuperior(item.1);
      } else {
        assert head[1..] == [];
        assert MapOfFirst(head) == map[] + map[item.0 := item.1.atom];
        MapUnionEmpty(map[item.0 := item.1.atom]);
      }
      assert Produced(parent, item, Superior) == Ok(MapOfFirst(head));
      MergeSuperior(collected, MapOfFirst(head));
      RavelFoldSuperior(parent, rest[1..], MapOfFirst(head) + collected);
      MapUnionAssociative(MapOfFirst(tail), MapOfFirst(head), collected);
    }
  }

  /** Distinct keys over a concatenation: distinct within each part and no key shared between them. */
  lemma DistinctKeysConcat<A>(p: seq<(string, A)>, q: seq<(string, A)>)
    ensures DistinctKeys(p + q) <==> DistinctKeys(p) && DistinctKeys(q) && MapOf(p).Keys !! MapOf(q).Keys
  {
    if DistinctKeys(p + q) {
      DistinctKeysSplit(p, q);
      forall k | k in MapOf(p) ensures k !in MapOf(q) {
        MapOfKeys(p, k);
        MapOfKeys(q, k);
        var i :| 0 <= i < |p| && p[i].0 == k;
        assert forall j :: 0 <= j < |q| ==> q[j].0 != k;
      }
    }
    if DistinctKeys(p) && DistinctKeys(q) && MapOf(p).Keys !! MapOf(q).Keys {
      forall i, j | 0 <= i < j < |p + q| ensures (p + q)[i].0 != (p + q)[j].0 {
        if i < |p| <= j {
          MapOfKeys(p, p[i].0);
          MapOfKeys(q, p[i].0);
          assert q[j - |p|] == (p + q)[j];
        }
      }
    }
  }

  /**
   * Under `raise`, for every dictionary: DataError exactly when some key is
   * held by two atoms, at whatever depths, and otherwise the dictionary of
   * all atoms with their keys.
   */
  lemma {:induction false} RavelRaise<A>(d: Value<A>)
    requires d.Nested?
    ensures Ravel(d, Raise) == if DistinctKeys(LeafPairs(d)) then Ok(MapOf(LeafPairs(d))) else Err(DataError)
    decreases d, 1
  {
    var sorted := SortItems(d.items);
    var none: map<string, A> := map[];
    assert LeafPairs(d) == LeafPairsOf(d, sorted);
    RavelFoldRaise(d, sorted, none);
    MapUnionEmpty(MapOf(LeafPairsOf(d, sorted)));
  }

  lemma {:induction false} RavelFoldRaise<A>(parent: Value<A>, rest: seq<(string, Value<A>)>, collected: map<string, A>)
    requires parent.Nested?
    requires forall j :: 0 <= j < |rest| ==> rest[j] in parent.items
    ensures RavelFold(parent, rest, collected, Raise) ==
              if DistinctKeys(LeafPairsOf(parent, rest)) && collected.Keys !! MapOf(LeafPairsOf(parent, rest)).Keys
              then Ok(collected + MapOf(LeafPairsOf(parent, rest)))
              else Err(DataError)
    decreases parent, 0, |rest|
  {
    if rest == [] {
      assert collected + map[] == collected;
    } else {
      var item := rest[0];
      assert item in parent.items;
      var head := if item.1.Nested? then LeafPairs(item.1) else [(item.0, item.1.atom)];
      var tail := LeafPairsOf(parent, rest[1..]);
      assert LeafPairsOf(parent, rest) == head + tail;
      MapOfConcat(head, tail);
      DistinctKeysConcat(head, tail);
      if item.1.Nested? {
        RavelRaise(item.1);
      } else {
        assert MapOf(head) == map[item.0 := item.1.atom];
      }
      assert Produced(parent, item, Raise) == if DistinctKeys(head) then Ok(MapOf(head)) else Err(DataError);
      if DistinctKeys(head) && collected.Keys !! MapOf(head).Keys {
        MapUnionDisjoint(collected, MapOf(head));
        assert Merge(collected, MapOf(head), Raise) == Ok(collected + MapOf(head));
        RavelFoldRaise(parent, rest[1..], collected + MapOf(head));
        MapUnionAssociative(collected, MapOf(head), MapOf(tail));
      }
    }
  }

  /**
   * What every rule keeps: the keys of the result are exactly the keys of
   * the atoms, at any depth; the keys of entries holding dictionaries are
   * dropped. Only `raise` can fail.
   */
  lemma RavelKeys<A>(d: Value<A>, rule: Conflict, k: string)
    requires d.Nested?
    ensures rule != Raise ==> Ravel(d, rule).Ok?
    ensures Ravel(d, rule).Ok? ==>
              (k in Ravel(d, rule).value <==> exists i :: 0 <= i < |LeafPairs(d)| && LeafPairs(d)[i].0 == k)
  {
    MapOfKeys(LeafPairs(d), k);
    match rule
    case Raise => RavelRaise(d);
    case Superior => RavelSuperior(d); MapOfFirstKeys(LeafPairs(d));
    case Inferior => RavelInferior(d);
  }

  /** In the dictionary built from pairs, a key holds the value of its last pair. */
  lemma {:induction false} MapOfLast<A>(pairs: seq<(string, A)>, i: int)
    requires 0 <= i < |pairs|
    requires forall j :: i < j < |pairs| ==> pairs[j].0 != pairs[i].0
    ensures pairs[i].0 in MapOf(pairs) && MapOf(pairs)[pairs[i].0] == pairs[i].1
  {
    if i > 0 {
      assert pairs[1..][i - 1] == pairs[i];
      MapOfLast(pairs[1..], i - 1);
    } else {
      MapOfKeys(pairs[1..], pairs[0].0);
      assert forall j :: 0 <= j < |pairs[1..]| ==> pairs[1..][j] == pairs[j + 1];
    }
  }

  /** In the dictionary built first-wins from pairs, a key holds the value of its first pair. */
  lemma {:induction false} MapOfFirstAt<A>(pairs: seq<(string, A)>, i: int)
    requires 0 <= i < |pairs|
    requires forall j :: 0 <= j < i ==> pairs[j].0 != pairs[i].0
    ensures pairs[i].0 in MapOfFirst(pairs) && MapOfFirst(pairs)[pairs[i].0] == pairs[i].1
  {
    if i > 0 {
      assert pairs[1..][i - 1] == pairs[i];
      MapOfFirstAt(pairs[1..], i - 1);
    }
  }

  /** Under `inferior`, a key takes the atom visited last among those holding it. */
  lemma RavelLastVisitedWins<A>(d: Value<A>, i: int)
    requires d.Nested? && 0 <= i < |LeafPairs(d)|
    requires forall j :: i < j < |LeafPairs(d)| ==> LeafPairs(d)[j].0 != LeafPairs(d)[i].0
    ensures Ravel(d, Inferior).Ok? && LeafPairs(d)[i].0 in Ravel(d, Inferior).value
    ensures Ravel(d, Inferior).value[LeafPairs(d)[i].0] == LeafPairs(d)[i].1
  {
    RavelInferior(d);
    MapOfLast(LeafPairs(d), i);
  }

  /** Under `superior`, a key takes the atom visited first among those holding it. */
  lemma RavelFirstVisitedWins<A>(d: Value<A>, i: int)
    requires d.Nested? && 0 <= i < |LeafPairs(d)|
    requires forall j :: 0 <= j < i ==> LeafPairs(d)[j].0 != LeafPairs(d)[i].0
    ensures Ravel(d, Superior).Ok? && LeafPairs(d)[i].0 in Ravel(d, Superior).value
    ensures Ravel(d, Superior).value[LeafPairs(d)[i].0] == LeafPairs(d)[i].1
  {
    RavelSuperior(d);
    MapOfFirstAt(LeafPairs(d), i);
  }

  /**
   * A dictionary without nested dictionaries is returned with exactly its
   * own key/value pairs, under every rule.
   */
  lemma RavelFlat<A>(d: Value<A>, rule: Conflict)
    requires d.Nested? && DistinctKeys(d.items)
    requires forall i :: 0 <= i < |d.items| ==> d.items[i].1.Leaf?
    ensures Ravel(d, rule).Ok?
    ensures forall k :: k in Ravel(d, rule).value <==> exists i :: 0 <= i < |d.items| && d.items[i].0 == k
    ensures forall i :: 0 <= i < |d.items| ==> Ravel(d, rule).value[d.items[i].0] == d.items[i].1.atom
  {
    FlatLeafMap(d);
    RavelNoOverlap(d, rule);
  }

  /** For a dictionary of atoms, the visited pairs have distinct keys and build the dictionary itself. */
  lemma FlatLeafMap<A>(d: Value<A>)
    requires d.Nested? && DistinctKeys(d.items)
    requires forall i :: 0 <= i < |d.items| ==> d.items[i].1.Leaf?
    ensures DistinctKeys(LeafPairs(d))
    ensures forall k :: k in MapOf(LeafPairs(d)) ==> exists i :: 0 <= i < |d.items| && d.items[i].0 == k
    ensures forall i :: 0 <= i < |d.items| ==>
              d.items[i].0 in MapOf(LeafPairs(d)) && MapOf(LeafPairs(d))[d.items[i].0] == d.items[i].1.atom
  {
    var sorted := SortItems(d.items);
    assert LeafPairs(d) == LeafPairsOf(d, sorted);
    forall j | 0 <= j < |sorted| ensures sorted[j].1.Leaf? {
      var i :| 0 <= i < |d.items| && d.items[i] == sorted[j];
    }
    FlatLeafPairs(d, sorted);
    DistinctKeysPermutation(d.items, sorted);
    FlatMapEntries(d.items, sorted, LeafPairsOf(d, sorted));
  }

  /** The dictionary built from the atoms of a rearrangement of atom items holds exactly those items. */
  lemma FlatMapEntries<A>(items: seq<(string, Value<A>)>, sorted: seq<(string, Value<A>)>, pairs: seq<(string, A)>)
    requires multiset(items) == multiset(sorted) && DistinctKeys(sorted)
    requires forall i :: 0 <= i < |items| ==> items[i].1.Leaf?
    requires |pairs| == |sorted|
    requires forall j :: 0 <= j < |sorted| ==> sorted[j].1.Leaf? && pairs[j] == (sorted[j].0, sorted[j].1.atom)
    ensures DistinctKeys(pairs)
    ensures forall k :: k in MapOf(pairs) ==> exists i :: 0 <= i < |items| && items[i].0 == k
    ensures forall i :: 0 <= i < |items| ==>
              items[i].0 in MapOf(pairs) && MapOf(pairs)[items[i].0] == items[i].1.atom
  {
    assert DistinctKeys(pairs) by {
      assert forall j :: 0 <= j < |pairs| ==> pairs[j].0 == sorted[j].0;
    }
    var m := MapOf(pairs);
    forall i | 0 <= i < |items| ensures items[i].0 in m && m[items[i].0] == items[i].1.atom {
      assert items[i] in multiset(sorted);
      var j :| 0 <= j < |sorted| && sorted[j] == items[i];
      MapOfAt(pairs, j);
    }
    forall k | k in m ensures exists i :: 0 <= i < |items| && items[i].0 == k {
      MapOfKeys(pairs, k);
      var j :| 0 <= j < |pairs| && pairs[j].0 == k;
      assert sorted[j] in multiset(items);
      var i :| 0 <= i < |items| && items[i] == sorted[j];
    }
  }

  /** For items that are all atoms, the visited pairs are the items themselves, position by position. */
  lemma {:induction false} FlatLeafPairs<A>(parent: Value<A>, rest: seq<(string, Value<A>)>)
    requires parent.Nested?
    requires forall j :: 0 <= j < |rest| ==> rest[j] in parent.items
    requires forall j :: 0 <= j < |rest| ==> rest[j].1.Leaf?
    ensures |LeafPairsOf(parent, rest)| == |rest|
    ensures forall j :: 0 <= j < |rest| ==> LeafPairsOf(parent, rest)[j] == (rest[j].0, rest[j].1.atom)
    decreases |rest|
  {
    if rest != [] {
      assert rest[0] in rest;
      FlatLeafPairs(parent, rest[1..]);
    }
  }

  /**
   * A key met at two depths: the top-level atom "a" is collected first
   * (keys are visited in ascending order), then the nested dictionary under
   * "b" produces "a" again. `raise` fails, `superior` keeps the first value,
   * `inferior` takes the second.
   */
  lemma RavelConflictScenario(d: Value<int>)
    requires d == Nested([("a", Leaf(1)), ("b", Nested([("a", Leaf(2))]))])
    ensures Ravel(d, Raise) == Err(DataError)
    ensures Ravel(d, Superior) == Ok(map["a" := 1])
    ensures Ravel(d, Inferior) == Ok(map["a" := 2])
  {
    ScenarioSingleMerge(d, Raise);
    ScenarioSingleMerge(d, Superior);
    ScenarioSingleMerge(d, Inferior);
    ScenarioMerges("a", map["a" := 1], map["a" := 2]);
  }

  /** The three rules applied to two one-entry dictionaries that share their key, holding 1 and 2. */
  lemma ScenarioMerges(key: string, first: map<string, int>, second: map<string, int>)
    requires first == map[key := 1] && second == map[key := 2]
    ensures Merge(first, second, Raise) == Err(DataError)
    ensures Merge(first, second, Superior) == Ok(first)
    ensures Merge(first, second, Inferior) == Ok(second)
  {
    assert key in first.Keys && key in second.Keys;
    assert !(first.Keys !! second.Keys);
    assert second + first == first;
    assert first + second == second;
  }

  /** The scenario above comes down to one merge of the two entries for "a". */
  lemma ScenarioSingleMerge(d: Value<int>, rule: Conflict)
    requires d == Nested([("a", Leaf(1)), ("b", Nested([("a", Leaf(2))]))])
    ensures Ravel(d, rule) == Merge(map["a" := 1], map["a" := 2], rule)
  {
    var none: map<string, int> := map[];
    var first: map<string, int> := map["a" := 1];
    ScenarioSorted(d);
    assert Produced(d, d.items[0], rule) == Ok(first);
    RavelFoldStep(d, d.items, none, first, rule);
    assert none + first == first;
    ScenarioInner(d.items[1].1, "a", 2, rule);
    assert d.items[1..][1..] == [];
  }

  /** The items of the scenario are already in ascending key order. */
  lemma ScenarioSorted(d: Value<int>)
    requires d == Nested([("a", Leaf(1)), ("b", Nested([("a", Leaf(2))]))])
    ensures SortItems(d.items) == d.items
  {
    assert KeyAtMost("a", "b");
  }

  /** A dictionary of one atom ravels to that one entry. */
  lemma ScenarioInner(inner: Value<int>, key: string, atom: int, rule: Conflict)
    requires inner == Nested([(key, Leaf(atom))])
    ensures Ravel(inner, rule) == Ok(map[key := atom])
  {
    var none: map<string, int> := map[];
    var only: map<string, int> := map[key := atom];
    var items := inner.items;
    assert items[1..] == [];
    assert SortItems(items[1..]) == [];
    assert SortItems(items) == items;
    assert items[0] in items;
    assert Produced(inner, items[0], rule) == Ok(only);
    assert none.Keys !! only.Keys && only + none == only;
    assert Merge(none, only, rule) == Ok(only);
    assert RavelFold(inner, items[1..], only, rule) == Ok(only);
  }

  /*
   * The precedence the function documents: under `superior` the least
   * nested entry of a key wins, entries at one depth going by the order of
   * their keys; under `inferior` the most nested wins, entries at one depth
   * going by the reverse order. The code instead lets the entry visited
   * first (`superior`) or last (`inferior`) win, whatever its depth, and a
   * nested dictionary under a small key is visited before an atom under a
   * larger one.
   */

  /** An atom with its key and the depth of the dictionary holding it (0 for the top level). */
  datatype Entry<A> = Entry(key: string, atom: A, depth: nat)

  /** The atoms of a dictionary at `depth`, with their depths, in the order the fold visits them. */
  function LeafEntries<A>(d: Value<A>, depth: nat): seq<Entry<A>>
    requires d.Nested?
    decreases d, 1
  {
    LeafEntriesOf(d, SortItems(d.items), depth)
  }

  function LeafEntriesOf<A>(parent: Value<A>, rest: seq<(string, Value<A>)>, depth: nat): seq<Entry<A>>
    requires parent.Nested?
    requires forall j :: 0 <= j < |rest| ==> rest[j] in parent.items
    decreases parent, 0, |rest|
  {
    if rest == [] then []
    else
      assert rest[0] in parent.items;
      (if rest[0].1.Nested? then LeafEntries(rest[0].1, depth + 1) else [Entry(rest[0].0, rest[0].1.atom, depth)])
      + LeafEntriesOf(parent, rest[1..], depth)
  }

  function Pairs<A>(entries: seq<Entry<A>>): (r: seq<(string, A)>)
    ensures |r| == |entries| && forall j :: 0 <= j < |entries| ==> r[j] == (entries[j].key, entries[j].atom)
  {
    seq(|entries|, j requires 0 <= j < |entries| => (entries[j].key, entries[j].atom))
  }

  /** The entries are the atoms the code visits, in the same order, with a depth added. */
  lemma {:induction false} LeafEntriesPairs<A>(d: Value<A>, depth: nat)
    requires d.Nested?
    ensures Pairs(LeafEntries(d, depth)) == LeafPairs(d)
    decreases d, 1
  {
    LeafEntriesOfPairs(d, SortItems(d.items), depth);
  }

  lemma {:induction false} LeafEntriesOfPairs<A>(parent: Value<A>, rest: seq<(string, Value<A>)>, depth: nat)
    requires parent.Nested?
    requires forall j :: 0 <= j < |rest| ==> rest[j] in parent.items
    ensures Pairs(LeafEntriesOf(parent, rest, depth)) == LeafPairsOf(parent, rest)
    decreases parent, 0, |rest|
  {
    if rest != [] {
      assert rest[0] in parent.items;
      var head := if rest[0].1.Nested? then LeafEntries(rest[0].1, depth + 1) else [Entry(rest[0].0, rest[0].1.atom, depth)];
      var tail := LeafEntriesOf(parent, rest[1..], depth);
      if rest[0].1.Nested? {
        LeafEntriesPairs(rest[0].1, depth + 1);
      }
      LeafEntriesOfPairs(parent, rest[1..], depth);
      PairsConcat(head, tail);
    }
  }

  lemma PairsConcat<A>(p: seq<Entry<A>>, q: seq<Entry<A>>)
    ensures Pairs(p + q) == Pairs(p) + Pairs(q)
  {
  }

  /**
   * Entry `w` takes precedence over entry `j` of the same key: under
   * `superior` by being less nested, or as nested and not later; under
   * `inferior` by being more nested, or as nested and not earlier. Under
   * `raise` an entry only stands for itself.
   */
  predicate Prevails<A>(entries: seq<Entry<A>>, w: int, j: int, rule: Conflict)
    requires 0 <= w < |entries| && 0 <= j < |entries|
  {
    match rule
    case Raise => w == j
    case Superior => entries[w].depth < entries[j].depth || (entries[w].depth == entries[j].depth && w <= j)
    case Inferior => entries[w].depth > entries[j].depth || (entries[w].depth == entries[j].depth && w >= j)
  }

  /** Entry `w` has key `k` and prevails over every entry of that key. */
  predicate Wins<A>(entries: seq<Entry<A>>, w: int, k: string, rule: Conflict)
  {
    0 <= w < |entries| && entries[w].key == k
    && forall j :: 0 <= j < |entries| && entries[j].key == k ==> Prevails(entries, w, j, rule)
  }

  /** For each key, the position of the entry that has prevailed so far, entries taken in order. */
  function Settle<A>(entries: seq<Entry<A>>, rule: Conflict): (r: map<string, nat>)
    ensures forall k :: k in r ==> r[k] < |entries| && entries[r[k]].key == k
    ensures forall j :: 0 <= j < |entries| ==> entries[j].key in r
  {
    if entries == [] then map[]
    else
      var n := |entries| - 1;
      var r := Settle(entries[..n], rule);
      var e := entries[n];
      if e.key in r && !Prevails(entries, n, r[e.key], rule) then r else r[e.key := n]
  }

  /** Under `superior` and `inferior`, the settled entry of every key wins it. */
  lemma {:induction false} SettleWins<A>(entries: seq<Entry<A>>, rule: Conflict, j: int)
    requires rule != Raise && 0 <= j < |entries|
    ensures Wins(entries, Settle(entries, rule)[entries[j].key], entries[j].key, rule)
  {
    var n := |entries| - 1;
    var front := entries[..n];
    var r := Settle(front, rule);
    var k := entries[j].key;
    var w := Settle(entries, rule)[k];
    if k in r {
      SettleWins(front, rule, r[k]);
      assert Wins(front, r[k], k, rule);
    }
    forall i | 0 <= i < |entries| && entries[i].key == k ensures Prevails(entries, w, i, rule) {
      if i < n {
        assert front[i].key == k;
        assert Prevails(front, r[k], i, rule);
        SettleStep(entries, rule, r[k], i);
      } else if w != n {
        assert w == r[k];
      }
    }
  }

  /** A later entry that prevails over an entry prevails over everything that one did. */
  lemma SettleStep<A>(entries: seq<Entry<A>>, rule: Conflict, p: int, i: int)
    requires rule != Raise && entries != [] && 0 <= p < |entries| - 1 && 0 <= i < |entries| - 1
    requires Prevails(entries, p, i, rule)
    ensures Prevails(entries, |entries| - 1, p, rule) ==> Prevails(entries, |entries| - 1, i, rule)
  {
  }

  /** A key has at most one winning entry. */
  lemma WinsUnique<A>(entries: seq<Entry<A>>, k: string, rule: Conflict, w1: int, w2: int)
    requires Wins(entries, w1, k, rule) && Wins(entries, w2, k, rule)
    ensures w1 == w2
  {
    assert Prevails(entries, w1, w2, rule) && Prevails(entries, w2, w1, rule);
  }

  /** Some key is held by two atoms. */
  predicate RepeatedKey<A>(entries: seq<Entry<A>>)
  {
    exists i, j :: 0 <= i < j < |entries| && entries[i].key == entries[j].key
  }

  /**
   * `ravel_dictionary` with the documented precedence: `raise` fails
   * exactly when two atoms share a key; otherwise each key takes the atom of
   * its winning entry.
   */
  function RavelByDepth<A>(d: Value<A>, rule: Conflict): (r: Result<map<string, A>>)
    requires d.Nested?
    ensures r.Err? <==> rule == Raise && RepeatedKey(LeafEntries(d, 0))
    ensures r.Err? ==> r.fault == DataError
  {
    var entries := LeafEntries(d, 0);
    if rule == Raise && RepeatedKey(entries) then Err(DataError)
    else
      var winners := Settle(entries, rule);
      Ok(map k | k in winners :: entries[winners[k]].atom)
  }

  /**
   * The corrected ravel holds exactly the keys of the atoms, and each key's
   * value is the atom of the entry that wins that key under the rule.
   */
  lemma RavelByDepthPrecedence<A>(d: Value<A>, rule: Conflict)
    requires d.Nested? && RavelByDepth(d, rule).Ok?
    ensures forall j :: 0 <= j < |LeafEntries(d, 0)| ==> LeafEntries(d, 0)[j].key in RavelByDepth(d, rule).value
    ensures forall k :: k in RavelByDepth(d, rule).value ==>
              exists w :: Wins(LeafEntries(d, 0), w, k, rule) && RavelByDepth(d, rule).value[k] == LeafEntries(d, 0)[w].atom
  {
    var entries := LeafEntries(d, 0);
    var winners := Settle(entries, rule);
    var m := RavelByDepth(d, rule).value;
    assert m == map k | k in winners :: entries[winners[k]].atom;
    forall k | k in m ensures exists w :: Wins(entries, w, k, rule) && m[k] == entries[w].atom {
      var w := winners[k];
      if rule == Raise {
        assert !RepeatedKey(entries);
      } else {
        SettleWins(entries, rule, w);
      }
      assert Wins(entries, w, k, rule);
    }
  }

  /**
   * The dictionary `{"a": {"z": 1}, "z": 2}`: the key "a" is visited first,
   * so its nested "z" is collected before the top-level one. As written,
   * `superior` keeps the nested 1 and `inferior` the top-level 2.
   */
  lemma RavelDepthScenario(d: Value<int>)
    requires d == Nested([("a", Nested([("z", Leaf(1))])), ("z", Leaf(2))])
    ensures Ravel(d, Raise) == Err(DataError)
    ensures Ravel(d, Superior) == Ok(map["z" := 1])
    ensures Ravel(d, Inferior) == Ok(map["z" := 2])
  {
    DepthScenarioMerge(d, Raise);
    DepthScenarioMerge(d, Superior);
    DepthScenarioMerge(d, Inferior);
    ScenarioMerges("z", map["z" := 1], map["z" := 2]);
  }

  /** The scenario above comes down to one merge of the two entries for "z". */
  lemma DepthScenarioMerge(d: Value<int>, rule: Conflict)
    requires d == Nested([("a", Nested([("z", Leaf(1))])), ("z", Leaf(2))])
    ensures Ravel(d, rule) == Merge(map["z" := 1], map["z" := 2], rule)
  {
    var none: map<string, int> := map[];
    var first: map<string, int> := map["z" := 1];
    DepthScenarioSorted(d);
    assert d.items[0] in d.items;
    var second: map<string, int> := map["z" := 2];
    ScenarioInner(d.items[0].1, "z", 1, rule);
    assert Produced(d, d.items[0], rule) == Ok(first);
    RavelFoldStep(d, d.items, none, first, rule);
    assert none + first == first;
    var rest := d.items[1..];
    assert rest == [("z", Leaf(2))];
    FoldLastAtom(d, rest, first, "z", 2, rule);
  }

  /** Folding over one remaining atom is one merge of its entry. */
  lemma FoldLastAtom<A>(parent: Value<A>, rest: seq<(string, Value<A>)>, collected: map<string, A>,
                        key: string, atom: A, rule: Conflict)
    requires parent.Nested? && rest == [(key, Leaf(atom))] && rest[0] in parent.items
    ensures RavelFold(parent, rest, collected, rule) == Merge(collected, map[key := atom], rule)
  {
    assert Produced(parent, rest[0], rule) == Ok(map[key := atom]);
    assert rest[1..] == [];
  }

  /** The items of the depth scenario are already in ascending key order. */
  lemma DepthScenarioSorted(d: Value<int>)
    requires d == Nested([("a", Nested([("z", Leaf(1))])), ("z", Leaf(2))])
    ensures SortItems(d.items) == d.items
  {
    assert KeyAtMost("a", "z");
  }

  /** The entries of the scenario: the nested "z" at depth 1, then the top-level "z" at depth 0. */
  lemma ScenarioEntries(d: Value<int>)
    requires d == Nested([("a", Nested([("z", Leaf(1))])), ("z", Leaf(2))])
    ensures LeafEntries(d, 0) == [Entry("z", 1, 1), Entry("z", 2, 0)]
  {
    var inner := d.items[0].1;
    DepthScenarioSorted(d);
    assert d.items[0] in d.items;
    SingleAtomEntries(inner, "z", 1, 1);
    var rest := d.items[1..];
    assert rest == [("z", Leaf(2))];
    AtomEntries(d, rest, "z", 2, 0);
    assert LeafEntriesOf(d, d.items, 0) == LeafEntries(inner, 1) + LeafEntriesOf(d, rest, 0);
  }

  /** A dictionary of one atom has that one entry. */
  lemma SingleAtomEntries<A>(d: Value<A>, key: string, atom: A, depth: nat)
    requires d == Nested([(key, Leaf(atom))])
    ensures LeafEntries(d, depth) == [Entry(key, atom, depth)]
  {
    AtomEntries(d, d.items, key, atom, depth);
    assert d.items[1..] == [];
    assert SortItems(d.items) == d.items;
  }

  /** One remaining atom gives one entry. */
  lemma AtomEntries<A>(parent: Value<A>, rest: seq<(string, Value<A>)>, key: string, atom: A, depth: nat)
    requires parent.Nested? && rest == [(key, Leaf(atom))] && rest[0] in parent.items
    ensures LeafEntriesOf(parent, rest, depth) == [Entry(key, atom, depth)]
  {
    assert rest[1..] == [];
  }

  /**
   * With the documented precedence, the same dictionary gives the top-level
   * 2 under `superior` and the nested 1 under `inferior`.
   */
  lemma RavelByDepthScenario(d: Value<int>)
    requires d == Nested([("a", Nested([("z", Leaf(1))])), ("z", Leaf(2))])
    ensures RavelByDepth(d, Superior) == Ok(map["z" := 2])
    ensures RavelByDepth(d, Inferior) == Ok(map["z" := 1])
  {
    ScenarioEntries(d);
    ScenarioByDepth(d, Superior, 1, 2);
    ScenarioByDepth(d, Inferior, 0, 1);
  }

  lemma ScenarioByDepth(d: Value<int>, rule: Conflict, w: nat, atom: int)
    requires d.Nested? && LeafEntries(d, 0) == [Entry("z", 1, 1), Entry("z", 2, 0)]
    requires (rule, w, atom) == (Superior, 1, 2) || (rule, w, atom) == (Inferior, 0, 1)
    ensures RavelByDepth(d, rule) == Ok(map["z" := atom])
  {
    var entries := LeafEntries(d, 0);
    ScenarioSettle(entries, rule, w);
    SettledAtoms(entries, rule, w, atom);
  }

  lemma SettledAtoms(entries: seq<Entry<int>>, rule: Conflict, w: nat, atom: int)
    requires w < |entries| && entries[w] == Entry("z", atom, entries[w].depth)
    requires Settle(entries, rule) == map["z" := w]
    ensures (map k | k in Settle(entries, rule) :: entries[Settle(entries, rule)[k]].atom) == map["z" := atom]
  {
    var winners := Settle(entries, rule);
    var m := map k | k in winners :: entries[winners[k]].atom;
    assert m.Keys == {"z"};
  }

  /** Settling the scenario's two entries: the top-level one wins under `superior`, the nested one under `inferior`. */
  lemma ScenarioSettle(entries: seq<Entry<int>>, rule: Conflict, w: nat)
    requires entries == [Entry("z", 1, 1), Entry("z", 2, 0)]
    requires (rule, w) == (Superior, 1) || (rule, w) == (Inferior, 0)
    ensures Settle(entries, rule) == map["z" := w]
  {
    assert entries[..1][..0] == [];
    assert Settle(entries[..1], rule) == map["z" := 0];
  }
}
