/**
 * The store screen's category list: the products are filtered by the search
 * query, grouped by category in first-appearance order, then ordered by group
 * size (largest first) with the category "Varios" moved to the end.
 */
module Catalog {
  import opened Sequences
  import opened SearchText
  import opened StableSort

  type Category = string

  /** A catalog entry, reduced to the fields the store screen reads. */
  datatype Product = Product(id: string, title: string, description: string, category: Category)

  /** One entry of the category list: a category and the products shown under it. */
  datatype Group = Group(category: Category, products: seq<Product>)

  /** The catch-all category that is always listed last. */
  const Varios: Category := "Varios"

  function CategoryOf(g: Group): Category {
    g.category
  }

  // ---------------------------------------------------------------------------
  // Search filter
  // ---------------------------------------------------------------------------

  /**
   * The search predicate: the lower-cased title followed directly by the
   * lower-cased description includes the lower-cased query. There is no
   * separator, so a match may run across the end of the title.
   */
  predicate MatchesQuery(p: Product, query: string) {
    Contains(Lower(p.title) + Lower(p.description), Lower(query))
  }

  /**
   * A product matches exactly when the lower-cased query occurs somewhere in
   * the lower-cased text of title and description joined.
   */
  lemma MatchesJoinedText(p: Product, query: string)
    ensures MatchesQuery(p, query) <==> exists i: nat :: OccursAt(Lower(p.title + p.description), Lower(query), i)
  {
    LowerConcat(p.title, p.description);
    assert MatchesQuery(p, query) == Contains(Lower(p.title) + Lower(p.description), Lower(query));
  }

  /** `Array.prototype.filter` with `MatchesQuery`. */
  function Matching(ps: seq<Product>, query: string): (r: seq<Product>)
    ensures IsSubsequence(r, ps)
  {
    if ps == [] then []
    else
      var init, last := ps[..|ps| - 1], ps[|ps| - 1];
      assert ps == init + [last];
      var r := Matching(init, query);
      SubsequenceSnoc(r, init, last);
      if MatchesQuery(last, query) then r + [last] else r
  }

  /** Membership: the filter keeps exactly the matching products. */
  lemma {:induction false} MatchingMembers(ps: seq<Product>, query: string)
    ensures forall i :: 0 <= i < |Matching(ps, query)| ==>
              Matching(ps, query)[i] in ps && MatchesQuery(Matching(ps, query)[i], query)
    ensures forall i :: 0 <= i < |ps| && MatchesQuery(ps[i], query) ==> ps[i] in Matching(ps, query)
  {
    if ps != [] {
      var init, last := ps[..|ps| - 1], ps[|ps| - 1];
      assert ps == init + [last];
      MatchingMembers(init, query);
      MatchingSnoc(init, last, query);
      var r := Matching(init, query);
      assert forall i :: 0 <= i < |r| ==> Matching(ps, query)[i] == r[i];
    }
  }

  /**
   * The filtered list the screen groups: the filter is skipped for the empty
   * query, which gives the same list as filtering by it.
   */
  function Search(ps: seq<Product>, query: string): (r: seq<Product>)
    ensures r == Matching(ps, query)
  {
    MatchingEmptyQuery(ps);
    if query == "" then ps else Matching(ps, query)
  }

  lemma MatchingSnoc(ps: seq<Product>, p: Product, query: string)
    ensures Matching(ps + [p], query) == Matching(ps, query) + (if MatchesQuery(p, query) then [p] else [])
  {
    assert (ps + [p])[..|ps|] == ps;
  }

  /** Every product matches the empty query. */
  lemma MatchesEmptyQuery(p: Product)
    ensures MatchesQuery(p, "")
  {
    assert Lower("") == "";
    ContainsEmpty(Lower(p.title) + Lower(p.description));
  }

  /** Filtering by the empty query keeps everything, so the guard on the query changes nothing. */
  lemma {:induction false} MatchingEmptyQuery(ps: seq<Product>)
    ensures Matching(ps, "") == ps
  {
    if ps != [] {
      var init, last := ps[..|ps| - 1], ps[|ps| - 1];
      MatchingEmptyQuery(init);
      MatchesEmptyQuery(last);
      MatchingSnoc(init, last, "");
      assert ps == init + [last];
    }
  }

  /** The filter keeps each matching product as often as it occurs and drops the rest. */
  lemma {:induction false} MatchingMultiplicity(ps: seq<Product>, query: string, p: Product)
    ensures multiset(Matching(ps, query))[p] == if MatchesQuery(p, query) then multiset(ps)[p] else 0
  {
    if ps != [] {
      var init, last := ps[..|ps| - 1], ps[|ps| - 1];
      MatchingMultiplicity(init, query, p);
      MatchingSnoc(init, last, query);
      assert ps == init + [last];
    }
  }

  /**
   * The search result, for any query: the products of `ps` that match, in
   * their original order, each as often as in `ps`; with the empty query, `ps`
   * itself.
   */
  lemma SearchKeepsExactlyMatches(ps: seq<Product>, query: string)
    ensures query == "" ==> Search(ps, query) == ps
    ensures IsSubsequence(Search(ps, query), ps)
    ensures forall p :: p in Search(ps, query) <==> p in ps && MatchesQuery(p, query)
    ensures forall p :: multiset(Search(ps, query))[p] == if MatchesQuery(p, query) then multiset(ps)[p] else 0
  {
    MatchingEmptyQuery(ps);
    var r := Search(ps, query);
    assert r == Matching(ps, query);
    forall p ensures multiset(r)[p] == if MatchesQuery(p, query) then multiset(ps)[p] else 0 {
      MatchingMultiplicity(ps, query, p);
    }
    forall p ensures p in r <==> p in ps && MatchesQuery(p, query) {
      MatchingMultiplicity(ps, query, p);
      assert p in r <==> multiset(r)[p] > 0;
      assert p in ps <==> multiset(ps)[p] > 0;
    }
  }

  /** The two fields are joined without a separator, so a query may span both. */
  lemma MatchAcrossTitleAndDescription()
    ensures MatchesQuery(Product("1", "Mesa", "Roja", "Muebles"), "sar")
  {
    assert Lower("Mesa") == "mesa";
    assert Lower("Roja") == "roja";
    assert Lower("sar") == "sar";
    assert "mesa" + "roja" == "me" + "sar" + "oja";
    ContainsInfix("me", "sar", "oja");
  }

  /** Upper-case letters in the query make no difference. */
  lemma QueryCaseInsensitive(p: Product, query: string)
    ensures MatchesQuery(p, Lower(query)) == MatchesQuery(p, query)
  {
    LowerIdempotent(query);
  }

  // ---------------------------------------------------------------------------
  // Grouping by category
  // ---------------------------------------------------------------------------

  /** The products of `ps` in category `c`, in their order in `ps`. */
  function InCategory(ps: seq<Product>, c: Category): (r: seq<Product>)
    ensures IsSubsequence(r, ps)
  {
    if ps == [] then []
    else
      var init, last := ps[..|ps| - 1], ps[|ps| - 1];
      assert ps == init + [last];
      var r := InCategory(init, c);
      SubsequenceSnoc(r, init, last);
      if last.category == c then r + [last] else r
  }

  lemma InCategorySnoc(ps: seq<Product>, p: Product, c: Category)
    ensures InCategory(ps + [p], c) == InCategory(ps, c) + (if p.category == c then [p] else [])
  {
    assert (ps + [p])[..|ps|] == ps;
  }

  /** Multiplicity: the bucket of `c` keeps each product of category `c` as often as it occurs, and no other product. */
  lemma {:induction false} InCategoryMultiplicity(ps: seq<Product>, c: Category, p: Product)
    ensures multiset(InCategory(ps, c))[p] == if p.category == c then multiset(ps)[p] else 0
  {
    if ps != [] {
      var init, last := ps[..|ps| - 1], ps[|ps| - 1];
      InCategoryMultiplicity(init, c, p);
      InCategorySnoc(init, last, c);
      assert ps == init + [last];
    }
  }

  /** Membership: the bucket of `c` holds exactly the products of category `c`. */
  lemma {:induction false} InCategoryMembers(ps: seq<Product>, c: Category)
    ensures forall i :: 0 <= i < |InCategory(ps, c)| ==>
              InCategory(ps, c)[i] in ps && InCategory(ps, c)[i].category == c
    ensures forall i :: 0 <= i < |ps| && ps[i].category == c ==> ps[i] in InCategory(ps, c)
  {
    if ps != [] {
      var init, last := ps[..|ps| - 1], ps[|ps| - 1];
      assert ps == init + [last];
      InCategoryMembers(init, c);
      InCategorySnoc(init, last, c);
      var r := InCategory(init, c);
      assert forall i :: 0 <= i < |r| ==> InCategory(ps, c)[i] == r[i];
    }
  }

  /** The distinct categories of `ps`, in the order they first occur. */
  function Keys(ps: seq<Product>): (ks: seq<Category>)
    ensures Distinct(ks)
    ensures forall i :: 0 <= i < |ps| ==> ps[i].category in ks
    ensures forall c :: c in ks ==> exists i :: 0 <= i < |ps| && ps[i].category == c
  {
    if ps == [] then []
    else
      var init, last := ps[..|ps| - 1], ps[|ps| - 1];
      var ks := Keys(init);
      assert forall i :: 0 <= i < |init| ==> ps[i] == init[i];
      if last.category in ks then ks else ks + [last.category]
  }

  lemma KeysSnoc(ps: seq<Product>, p: Product)
    ensures Keys(ps + [p]) == if p.category in Keys(ps) then Keys(ps) else Keys(ps) + [p.category]
  {
    assert (ps + [p])[..|ps|] == ps;
  }

  /** Position of the first product of category `c` (`|ps|` when there is none). */
  function FirstIndexOf(ps: seq<Product>, c: Category): (n: nat)
    ensures n <= |ps|
    ensures n < |ps| ==> ps[n].category == c
    ensures forall i :: 0 <= i < n ==> ps[i].category != c
  {
    if ps == [] then 0
    else if ps[0].category == c then 0
    else 1 + FirstIndexOf(ps[1..], c)
  }

  lemma FirstIndexSnoc(ps: seq<Product>, p: Product, c: Category)
    ensures c in Keys(ps) ==> FirstIndexOf(ps + [p], c) == FirstIndexOf(ps, c) < |ps|
    ensures c !in Keys(ps) && p.category == c ==> FirstIndexOf(ps + [p], c) == |ps|
  {
    var s := ps + [p];
    var n, n' := FirstIndexOf(ps, c), FirstIndexOf(s, c);
    if c in Keys(ps) {
      var k :| 0 <= k < |ps| && ps[k].category == c;
      assert n <= k;
      assert s[n] == ps[n];
      assert n' <= n;
      assert n' < |ps| && s[n'] == ps[n'];
    } else if p.category == c {
      assert forall i :: 0 <= i < |ps| ==> s[i] == ps[i];
      assert forall i :: 0 <= i < |ps| ==> ps[i].category != c;
      assert s[|ps|].category == c;
    }
  }

  /**
   * Keys ordered by a position stay ordered when the positions of the old
   * keys are kept and a new key, if any, is placed after all of them.
   */
  lemma AppendKeepsOrder(ks: seq<Category>, ks': seq<Category>, c: Category,
                         before: Category -> int, after: Category -> int, bound: int)
    requires forall i, j :: 0 <= i < j < |ks| ==> before(ks[i]) < before(ks[j])
    requires forall i :: 0 <= i < |ks| ==> after(ks[i]) == before(ks[i]) < bound
    requires ks' == ks || (ks' == ks + [c] && after(c) == bound)
    ensures forall i, j :: 0 <= i < j < |ks'| ==> after(ks'[i]) < after(ks'[j])
  {
    forall i, j | 0 <= i < j < |ks'| ensures after(ks'[i]) < after(ks'[j]) {
      assert ks'[i] == ks[i];
      if j < |ks| {
        assert ks'[j] == ks[j];
      } else {
        assert ks'[j] == c;
      }
    }
  }

  /** `Keys` lists categories in order of their first product. */
  lemma {:induction false} KeysInFirstAppearanceOrder(ps: seq<Product>)
    ensures forall i, j :: 0 <= i < j < |Keys(ps)| ==> FirstIndexOf(ps, Keys(ps)[i]) < FirstIndexOf(ps, Keys(ps)[j])
  {
    if ps != [] {
      var init, last := ps[..|ps| - 1], ps[|ps| - 1];
      assert ps == init + [last];
      KeysInFirstAppearanceOrder(init);
      KeysSnoc(init, last);
      var ks := Keys(init);
      forall i | 0 <= i < |ks| ensures FirstIndexOf(ps, ks[i]) == FirstIndexOf(init, ks[i]) < |init| {
        FirstIndexSnoc(init, last, ks[i]);
      }
      FirstIndexSnoc(init, last, last.category);
      AppendKeepsOrder(ks, Keys(ps), last.category, c => FirstIndexOf(init, c), c => FirstIndexOf(ps, c), |init|);
    }
  }

  /** The bucket of a category that is not a key is empty. */
  lemma InCategoryOfMissing(ps: seq<Product>, c: Category)
    ensures c !in Keys(ps) ==> InCategory(ps, c) == []
  {
    var r := InCategory(ps, c);
    InCategoryMembers(ps, c);
    if r != [] {
      var k :| 0 <= k < |ps| && ps[k] == r[0];
      assert c in Keys(ps);
    }
  }

  /** The groups for the keys `ks`: each key with its bucket of `ps`. */
  function GroupsFor(ps: seq<Product>, ks: seq<Category>): (gs: seq<Group>)
    ensures |gs| == |ks|
  {
    seq(|ks|, i requires 0 <= i < |ks| => Group(ks[i], InCategory(ps, ks[i])))
  }

  /** The grouping of `ps`: one group per category, in first-appearance order. */
  function Grouped(ps: seq<Product>): seq<Group> {
    GroupsFor(ps, Keys(ps))
  }

  /**
   * The state of the `reduce` after the products `done`: the map's keys in
   * insertion order are `order`, and each key's entry in `buckets` is its
   * bucket of `done`.
   */
  ghost predicate MapState(done: seq<Product>, order: seq<Category>, buckets: map<Category, seq<Product>>) {
    && order == Keys(done)
    && (forall c :: c in buckets <==> c in order)
    && (forall c :: c in buckets ==> buckets[c] == InCategory(done, c))
  }

  /** One step of the `reduce`: adding `p` (creating its entry when missing) keeps the map in step. */
  lemma AddProduct(done: seq<Product>, p: Product, order: seq<Category>, buckets: map<Category, seq<Product>>,
                   order': seq<Category>, buckets': map<Category, seq<Product>>)
    requires MapState(done, order, buckets)
    requires order' == if p.category in buckets then order else order + [p.category]
    requires buckets' == buckets[p.category := (if p.category in buckets then buckets[p.category] else []) + [p]]
    ensures MapState(done + [p], order', buckets')
  {
    KeysSnoc(done, p);
    InCategoryOfMissing(done, p.category);
    forall c | c in buckets' ensures buckets'[c] == InCategory(done + [p], c) {
      InCategorySnoc(done, p, c);
    }
  }

  /** The same step, stated on the prefix of the list processed so far. */
  lemma AddToMap(ps: seq<Product>, i: nat, order: seq<Category>, buckets: map<Category, seq<Product>>,
                 order': seq<Category>, buckets': map<Category, seq<Product>>)
    requires i < |ps|
    requires MapState(ps[..i], order, buckets)
    requires order' == if ps[i].category in buckets then order else order + [ps[i].category]
    requires buckets' == buckets[ps[i].category := (if ps[i].category in buckets then buckets[ps[i].category] else []) + [ps[i]]]
    ensures MapState(ps[..i + 1], order', buckets')
  {
    assert ps[..i + 1] == ps[..i] + [ps[i]];
    AddProduct(ps[..i], ps[i], order, buckets, order', buckets');
  }

  /** `Array.from(map.entries())`: each key, in insertion order, with its entry. */
  function Entries(order: seq<Category>, buckets: map<Category, seq<Product>>): (gs: seq<Group>)
    requires forall k :: 0 <= k < |order| ==> order[k] in buckets
    ensures |gs| == |order|
    ensures forall k :: 0 <= k < |order| ==> gs[k].category == order[k] && gs[k].products == buckets[order[k]]
  {
    seq(|order|, k requires 0 <= k < |order| => Group(order[k], buckets[order[k]]))
  }

  /** Once every product is added, the map's entries are the grouping. */
  lemma MapEntriesAreGroups(ps: seq<Product>, order: seq<Category>, buckets: map<Category, seq<Product>>)
    requires MapState(ps, order, buckets)
    ensures forall k :: 0 <= k < |order| ==> order[k] in buckets
    ensures Entries(order, buckets) == Grouped(ps)
  {
    assert forall k :: 0 <= k < |order| ==> Entries(order, buckets)[k] == Grouped(ps)[k];
  }

  /**
   * The `reduce` over the filtered list into an insertion-ordered map from
   * category to products, followed by `Array.from(map.entries())`. The map is
   * the key order `order` (a `Map` iterates in insertion order) with the
   * dictionary `buckets`.
   */
  method GroupByCategory(draft: seq<Product>) returns (groups: seq<Group>)
    ensures groups == Grouped(draft)
  {
    var order: seq<Category> := [];
    var buckets: map<Category, seq<Product>> := map[];
    var i := 0;
    while i < |draft|
      invariant 0 <= i <= |draft|
      invariant MapState(draft[..i], order, buckets)
    {
      var p := draft[i];
      ghost var order0, buckets0 := order, buckets;
      if p.category !in buckets {
        order := order + [p.category];
        buckets := buckets[p.category := []];
      }
      buckets := buckets[p.category := buckets[p.category] + [p]];
      AddToMap(draft, i, order0, buckets0, order, buckets);
      i := i + 1;
    }
    assert draft[..i] == draft;
    MapEntriesAreGroups(draft, order, buckets);
    groups := Entries(order, buckets);
  }

  // ---------------------------------------------------------------------------
  // Partition facts about the grouping
  // ---------------------------------------------------------------------------

  /** The total number of products over all groups. */
  function SumSizes(gs: seq<Group>): nat {
    if gs == [] then 0 else SumSizes(gs[..|gs| - 1]) + |gs[|gs| - 1].products|
  }

  lemma SumSizesSnoc(gs: seq<Group>, g: Group)
    ensures SumSizes(gs + [g]) == SumSizes(gs) + |g.products|
  {
    assert (gs + [g])[..|gs|] == gs;
  }

  /** How often `c` occurs in `ks`. */
  function Occurrences(ks: seq<Category>, c: Category): nat {
    if ks == [] then 0 else Occurrences(ks[..|ks| - 1], c) + (if ks[|ks| - 1] == c then 1 else 0)
  }

  lemma {:induction false} OccurrencesDistinct(ks: seq<Category>, c: Category)
    requires Distinct(ks)
    ensures Occurrences(ks, c) == if c in ks then 1 else 0
  {
    if ks != [] {
      var init := ks[..|ks| - 1];
      assert ks == init + [ks[|ks| - 1]];
      OccurrencesDistinct(init, c);
    }
  }

  lemma GroupsForInit(ps: seq<Product>, ks: seq<Category>)
    requires ks != []
    ensures GroupsFor(ps, ks) == GroupsFor(ps, ks[..|ks| - 1]) + [Group(ks[|ks| - 1], InCategory(ps, ks[|ks| - 1]))]
  {
  }

  /** Adding a product adds one to the total once for every time its category is a key. */
  lemma {:induction false} SumSizesGroupsForSnoc(ps: seq<Product>, p: Product, ks: seq<Category>)
    ensures SumSizes(GroupsFor(ps + [p], ks)) == SumSizes(GroupsFor(ps, ks)) + Occurrences(ks, p.category)
  {
    if ks != [] {
      var init, k := ks[..|ks| - 1], ks[|ks| - 1];
      SumSizesGroupsForSnoc(ps, p, init);
      GroupsForInit(ps + [p], ks);
      GroupsForInit(ps, ks);
      SumSizesSnoc(GroupsFor(ps + [p], init), Group(k, InCategory(ps + [p], k)));
      SumSizesSnoc(GroupsFor(ps, init), Group(k, InCategory(ps, k)));
      InCategorySnoc(ps, p, k);
    }
  }

  /** With distinct keys covering every category, the buckets hold every product exactly once. */
  lemma {:induction false} SumSizesGroupsFor(ps: seq<Product>, ks: seq<Category>)
    requires Distinct(ks)
    requires forall i :: 0 <= i < |ps| ==> ps[i].category in ks
    ensures SumSizes(GroupsFor(ps, ks)) == |ps|
  {
    if ps == [] {
      SumSizesGroupsForEmpty(ks);
    } else {
      var init, last := ps[..|ps| - 1], ps[|ps| - 1];
      assert ps == init + [last];
      SumSizesGroupsFor(init, ks);
      SumSizesGroupsForSnoc(init, last, ks);
      OccurrencesDistinct(ks, last.category);
    }
  }

  lemma {:induction false} SumSizesGroupsForEmpty(ks: seq<Category>)
    ensures SumSizes(GroupsFor([], ks)) == 0
  {
    if ks != [] {
      SumSizesGroupsForEmpty(ks[..|ks| - 1]);
      GroupsForInit([], ks);
      SumSizesSnoc(GroupsFor([], ks[..|ks| - 1]), Group(ks[|ks| - 1], InCategory([], ks[|ks| - 1])));
    }
  }

  // ---------------------------------------------------------------------------
  // Ordering the groups
  // ---------------------------------------------------------------------------

  /**
   * The first comparator as written: `(a, b) => b.length - a.length`. A
   * negative answer puts `a` first, which happens exactly when `a` is the
   * larger group.
   */
  function BySizeDescending(a: Group, b: Group): (r: int)
    ensures r < 0 <==> |a.products| > |b.products|
    ensures r == 0 <==> |a.products| == |b.products|
  {
    |b.products| - |a.products|
  }

  /**
   * The second comparator as written: a "Varios" group goes after the other
   * group, any other group before a "Varios" one, and all other pairs are
   * equal. On two "Varios" groups it still answers "after".
   */
  function VariosLast(a: Group, b: Group): (r: int)
    ensures r > 0 <==> a.category == Varios
    ensures r < 0 <==> a.category != Varios && b.category == Varios
  {
    if a.category == Varios then 1 else if b.category == Varios then -1 else 0
  }

  /** Sort key equivalent to `BySizeDescending`. */
  function SizeKey(g: Group): int {
    -|g.products|
  }

  /** Sort key equivalent to `VariosLast` on groups of different categories. */
  function VariosKey(g: Group): int {
    if g.category == Varios then 1 else 0
  }

  /**
   * Each comparator is the difference of its key, so sorting with the
   * comparator is sorting by the key. For `VariosLast` this holds except on
   * two "Varios" groups, which never meet because categories are distinct.
   */
  lemma ComparatorsAreKeyDifferences(a: Group, b: Group)
    ensures BySizeDescending(a, b) == SizeKey(a) - SizeKey(b)
    ensures a.category != b.category ==> VariosLast(a, b) == VariosKey(a) - VariosKey(b)
  {
  }

  /** The two sorts applied in turn; they keep the number of groups. */
  function Ordered(gs: seq<Group>): (r: seq<Group>)
    ensures |r| == |gs|
  {
    SortByKey(SortByKey(gs, SizeKey), VariosKey)
  }

  lemma {:induction false} OrderedPermutes(gs: seq<Group>)
    ensures multiset(Ordered(gs)) == multiset(gs)
  {
    SortPermutes(gs, SizeKey);
    SortPermutes(SortByKey(gs, SizeKey), VariosKey);
  }

  lemma {:induction false} OrderedKeepsDistinctCategories(gs: seq<Group>)
    requires InjectiveOn(gs, CategoryOf)
    ensures InjectiveOn(Ordered(gs), CategoryOf)
  {
    SortKeepsInjective(gs, SizeKey, CategoryOf);
    SortKeepsInjective(SortByKey(gs, SizeKey), VariosKey, CategoryOf);
  }

  lemma {:induction false} InsertKeepsTotal(s: seq<Group>, x: Group, key: Group -> int)
    ensures SumSizes(Insert(s, x, key)) == SumSizes(s) + |x.products|
  {
    if s == [] {
      assert [x] == [] + [x];
      SumSizesSnoc([], x);
    } else if key(s[|s| - 1]) <= key(x) {
      SumSizesSnoc(s, x);
    } else {
      var init, last := s[..|s| - 1], s[|s| - 1];
      InsertKeepsTotal(init, x, key);
      SumSizesSnoc(Insert(init, x, key), last);
    }
  }

  lemma {:induction false} SortKeepsTotal(s: seq<Group>, key: Group -> int)
    ensures SumSizes(SortByKey(s, key)) == SumSizes(s)
  {
    if s != [] {
      var init := s[..|s| - 1];
      SortKeepsTotal(init, key);
      InsertKeepsTotal(SortByKey(init, key), s[|s| - 1], key);
    }
  }

  /** A "Varios" group, when there is one, comes last. */
  lemma {:induction false} OrderedVariosLast(gs: seq<Group>)
    requires InjectiveOn(gs, CategoryOf)
    ensures forall i :: 0 <= i < |Ordered(gs)| && Ordered(gs)[i].category == Varios ==> i == |Ordered(gs)| - 1
  {
    var s1 := SortByKey(gs, SizeKey);
    var r := SortByKey(s1, VariosKey);
    OrderedKeepsDistinctCategories(gs);
    SortSorted(s1, VariosKey);
    forall i | 0 <= i < |r| - 1 ensures r[i].category != Varios {
      assert VariosKey(r[i]) <= VariosKey(r[|r| - 1]);
      assert CategoryOf(r[i]) != CategoryOf(r[|r| - 1]);
    }
  }

  /** Groups other than "Varios" never grow in size from left to right. */
  lemma {:induction false} OrderedSizesNonIncreasing(gs: seq<Group>)
    ensures forall i, j :: 0 <= i < j < |Ordered(gs)| && Ordered(gs)[j].category != Varios ==>
              |Ordered(gs)[i].products| >= |Ordered(gs)[j].products|
  {
    var s1 := SortByKey(gs, SizeKey);
    var r := SortByKey(s1, VariosKey);
    SortSorted(gs, SizeKey);
    SortSorted(s1, VariosKey);
    SortStable(s1, VariosKey, 0);
    WithKeySorted(s1, VariosKey, 0, SizeKey);
    var w := WithKey(r, VariosKey, 0);
    assert SortedBy(w, SizeKey);
    forall i, j | 0 <= i < j < |r| && r[j].category != Varios ensures |r[i].products| >= |r[j].products| {
      assert VariosKey(r[i]) <= VariosKey(r[j]);
      WithKeyKeepsOrder(r, VariosKey, 0, i, j);
      var i', j' :| 0 <= i' < j' < |w| && w[i'] == r[i] && w[j'] == r[j];
      assert SizeKey(w[i']) <= SizeKey(w[j']);
    }
  }

  /** Two groups other than "Varios" of equal size keep their order from the input. */
  lemma {:induction false} OrderedTiesKeepInputOrder(gs: seq<Group>, i: nat, j: nat)
    requires i < j < |Ordered(gs)|
    requires Ordered(gs)[i].category != Varios && Ordered(gs)[j].category != Varios
    requires |Ordered(gs)[i].products| == |Ordered(gs)[j].products|
    ensures exists a, b :: 0 <= a < b < |gs| && gs[a] == Ordered(gs)[i] && gs[b] == Ordered(gs)[j]
  {
    var s1 := SortByKey(gs, SizeKey);
    var r := SortByKey(s1, VariosKey);
    var n := SizeKey(r[i]);
    var w1 := WithKey(r, VariosKey, 0);
    WithKeyKeepsOrder(r, VariosKey, 0, i, j);
    var i1, j1 :| 0 <= i1 < j1 < |w1| && w1[i1] == r[i] && w1[j1] == r[j];
    var t := WithKey(w1, SizeKey, n);
    WithKeyKeepsOrder(w1, SizeKey, n, i1, j1);
    var i2, j2 :| 0 <= i2 < j2 < |t| && t[i2] == r[i] && t[j2] == r[j];
    SortStable(s1, VariosKey, 0);
    WithKeyCommute(s1, VariosKey, 0, SizeKey, n);
    SortStable(gs, SizeKey, n);
    WithKeyCommute(gs, VariosKey, 0, SizeKey, n);
    var u := WithKey(gs, VariosKey, 0);
    assert t == WithKey(u, SizeKey, n);
    WithKeyFromOrder(u, SizeKey, n, i2, j2);
    var a1, b1 :| 0 <= a1 < b1 < |u| && u[a1] == t[i2] && u[b1] == t[j2];
    WithKeyFromOrder(gs, VariosKey, 0, a1, b1);
  }

  // ---------------------------------------------------------------------------
  // The whole derivation
  // ---------------------------------------------------------------------------

  /** The category list the screen renders: one group per distinct category of the filtered products. */
  function CategoryList(products: seq<Product>, query: string): (r: seq<Group>)
    ensures |r| == |Keys(Search(products, query))|
  {
    Ordered(Grouped(Search(products, query)))
  }

  /**
   * The `categories` memo: filter, group, copy the entries into an array and
   * sort it twice in place.
   */
  method Categories(products: seq<Product>, query: string) returns (categories: seq<Group>)
    ensures categories == CategoryList(products, query)
  {
    var draft := products;
    if query != "" {
      draft := Matching(draft, query);
    }
    var groups := GroupByCategory(draft);
    var entries := new Group[|groups|](k requires 0 <= k < |groups| => groups[k]);
    assert entries[..] == groups;
    SortInPlace(entries, SizeKey);
    SortInPlace(entries, VariosKey);
    categories := entries[..];
  }

  lemma GroupedFacts(f: seq<Product>)
    ensures InjectiveOn(Grouped(f), CategoryOf)
    ensures forall a :: 0 <= a < |Grouped(f)| ==> Grouped(f)[a] == Group(Keys(f)[a], InCategory(f, Keys(f)[a]))
  {
  }

  /** Each group of the list lies in the grouping of the filtered products. */
  lemma CatalogFromGrouped(products: seq<Product>, query: string, i: nat)
    requires i < |CategoryList(products, query)|
    ensures exists a :: 0 <= a < |Keys(Search(products, query))|
              && CategoryList(products, query)[i] == Grouped(Search(products, query))[a]
  {
    var g := Grouped(Search(products, query));
    OrderedPermutes(g);
    assert CategoryList(products, query)[i] in multiset(g);
  }

  /** No category is listed twice. */
  lemma CatalogCategoriesDistinct(products: seq<Product>, query: string)
    ensures InjectiveOn(CategoryList(products, query), CategoryOf)
  {
    GroupedFacts(Search(products, query));
    OrderedKeepsDistinctCategories(Grouped(Search(products, query)));
  }

  /** One listed group holds exactly the filtered products of its category and is not empty. */
  lemma CatalogEntryIsBucket(products: seq<Product>, query: string, i: nat)
    requires i < |CategoryList(products, query)|
    ensures CategoryList(products, query)[i].products == InCategory(Search(products, query), CategoryList(products, query)[i].category)
    ensures CategoryList(products, query)[i].products != []
  {
    var f, r := Search(products, query), CategoryList(products, query);
    CatalogFromGrouped(products, query, i);
    var a :| 0 <= a < |Keys(f)| && r[i] == Grouped(f)[a];
    var c := Keys(f)[a];
    assert r[i] == Group(c, InCategory(f, c));
    assert c in Keys(f);
    var k :| 0 <= k < |f| && f[k].category == c;
    InCategoryMembers(f, c);
    assert f[k] in InCategory(f, c);
  }

  /**
   * Each listed group holds exactly the filtered products of its category,
   * in filtered order, and is never empty.
   */
  lemma CatalogGroupsAreBuckets(products: seq<Product>, query: string)
    ensures forall i :: 0 <= i < |CategoryList(products, query)| ==>
              CategoryList(products, query)[i].products == InCategory(Search(products, query), CategoryList(products, query)[i].category)
    ensures forall i :: 0 <= i < |CategoryList(products, query)| ==> CategoryList(products, query)[i].products != []
  {
    forall i | 0 <= i < |CategoryList(products, query)|
      ensures CategoryList(products, query)[i].products == InCategory(Search(products, query), CategoryList(products, query)[i].category)
      ensures CategoryList(products, query)[i].products != []
    {
      CatalogEntryIsBucket(products, query, i);
    }
  }

  /**
   * Each listed group keeps every filtered product of its category as often
   * as the filtered list holds it, and no other product.
   */
  lemma CatalogGroupMultiplicity(products: seq<Product>, query: string, i: nat, p: Product)
    requires i < |CategoryList(products, query)|
    ensures multiset(CategoryList(products, query)[i].products)[p]
            == if p.category == CategoryList(products, query)[i].category then multiset(Search(products, query))[p] else 0
  {
    CatalogEntryIsBucket(products, query, i);
    InCategoryMultiplicity(Search(products, query), CategoryList(products, query)[i].category, p);
  }

  /** Each filtered product is listed in exactly one group, the one of its own category. */
  lemma CatalogProductInExactlyOneGroup(products: seq<Product>, query: string, p: Product)
    requires p in Search(products, query)
    ensures exists i :: 0 <= i < |CategoryList(products, query)| && p in CategoryList(products, query)[i].products
    ensures forall i :: 0 <= i < |CategoryList(products, query)| && p in CategoryList(products, query)[i].products ==>
              CategoryList(products, query)[i].category == p.category
    ensures forall i, j :: (0 <= i < |CategoryList(products, query)| && 0 <= j < |CategoryList(products, query)|
              && p in CategoryList(products, query)[i].products && p in CategoryList(products, query)[j].products) ==> i == j
  {
    var f, r := Search(products, query), CategoryList(products, query);
    CatalogCoversSearch(products, query);
    CatalogCategoriesDistinct(products, query);
    forall i | 0 <= i < |r| && p in r[i].products ensures r[i].category == p.category {
      CatalogEntryIsBucket(products, query, i);
      InCategoryMembers(f, r[i].category);
    }
    forall i, j | 0 <= i < |r| && 0 <= j < |r| && p in r[i].products && p in r[j].products ensures i == j {
      assert CategoryOf(r[i]) == CategoryOf(r[j]);
    }
  }

  /** Every filtered product is listed, in the group of its own category. */
  lemma CatalogCoversSearch(products: seq<Product>, query: string)
    ensures forall p :: p in Search(products, query) ==>
              (exists i :: 0 <= i < |CategoryList(products, query)| && CategoryList(products, query)[i].category == p.category
                 && p in CategoryList(products, query)[i].products)
  {
    var f, r := Search(products, query), CategoryList(products, query);
    var g := Grouped(f);
    GroupedFacts(f);
    OrderedPermutes(g);
    forall p | p in f
      ensures exists i :: 0 <= i < |r| && r[i].category == p.category && p in r[i].products
    {
      var k :| 0 <= k < |f| && f[k] == p;
      var a :| 0 <= a < |Keys(f)| && Keys(f)[a] == p.category;
      assert g[a] in multiset(r);
      var i :| 0 <= i < |r| && r[i] == g[a];
      InCategoryMembers(f, p.category);
      assert p in r[i].products;
    }
  }

  /** The group sizes add up to the number of filtered products. */
  lemma CatalogSizesSum(products: seq<Product>, query: string)
    ensures SumSizes(CategoryList(products, query)) == |Search(products, query)|
  {
    var f := Search(products, query);
    var g := Grouped(f);
    SumSizesGroupsFor(f, Keys(f));
    SortKeepsTotal(g, SizeKey);
    SortKeepsTotal(SortByKey(g, SizeKey), VariosKey);
  }

  /** The list is empty exactly when no product passes the filter ("No hay productos"). */
  lemma CatalogEmptyIff(products: seq<Product>, query: string)
    ensures CategoryList(products, query) == [] <==> Search(products, query) == []
  {
    var f := Search(products, query);
    if f != [] {
      assert f[0].category in Keys(f);
    }
  }

  /** A "Varios" group, when present, is the last entry of the list. */
  lemma CatalogVariosLast(products: seq<Product>, query: string)
    ensures forall i :: 0 <= i < |CategoryList(products, query)| && CategoryList(products, query)[i].category == Varios ==>
              i == |CategoryList(products, query)| - 1
  {
    GroupedFacts(Search(products, query));
    OrderedVariosLast(Grouped(Search(products, query)));
  }

  /** Apart from "Varios", the list is ordered by size, largest group first. */
  lemma CatalogSizesNonIncreasing(products: seq<Product>, query: string)
    ensures forall i, j :: 0 <= i < j < |CategoryList(products, query)| && CategoryList(products, query)[j].category != Varios ==>
              |CategoryList(products, query)[i].products| >= |CategoryList(products, query)[j].products|
  {
    OrderedSizesNonIncreasing(Grouped(Search(products, query)));
  }

  /** Groups other than "Varios" of equal size are listed in order of their category's first filtered product. */
  lemma CatalogTiesInFirstAppearanceOrder(products: seq<Product>, query: string)
    ensures forall i, j :: (0 <= i < j < |CategoryList(products, query)|
              && CategoryList(products, query)[i].category != Varios && CategoryList(products, query)[j].category != Varios
              && |CategoryList(products, query)[i].products| == |CategoryList(products, query)[j].products|) ==>
              FirstIndexOf(Search(products, query), CategoryList(products, query)[i].category)
              < FirstIndexOf(Search(products, query), CategoryList(products, query)[j].category)
  {
    var r := CategoryList(products, query);
    forall i, j | 0 <= i < j < |r| && r[i].category != Varios && r[j].category != Varios
                  && |r[i].products| == |r[j].products|
      ensures FirstIndexOf(Search(products, query), r[i].category) < FirstIndexOf(Search(products, query), r[j].category)
    {
      TieInFirstAppearanceOrder(products, query, i, j);
    }
  }

  /** One pair of equal-size groups other than "Varios": the earlier one's category appears first. */
  lemma TieInFirstAppearanceOrder(products: seq<Product>, query: string, i: nat, j: nat)
    requires i < j < |CategoryList(products, query)|
    requires CategoryList(products, query)[i].category != Varios && CategoryList(products, query)[j].category != Varios
    requires |CategoryList(products, query)[i].products| == |CategoryList(products, query)[j].products|
    ensures FirstIndexOf(Search(products, query), CategoryList(products, query)[i].category)
            < FirstIndexOf(Search(products, query), CategoryList(products, query)[j].category)
  {
    var f, r := Search(products, query), CategoryList(products, query);
    var g := Grouped(f);
    GroupedFacts(f);
    KeysInFirstAppearanceOrder(f);
    OrderedTiesKeepInputOrder(g, i, j);
    var a, b :| 0 <= a < b < |g| && g[a] == r[i] && g[b] == r[j];
    assert r[i].category == Keys(f)[a] && r[j].category == Keys(f)[b];
  }
}
