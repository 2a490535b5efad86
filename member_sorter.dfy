/** src/memberSorter.ts: `sortMembers` takes the parsed members, drops the
    repeated names, sorts them with `sortByAccessModifier`, groups them by
    kind and replaces the class body with the rendered groups. */
module MemberSorter {
  import opened Strings
  import opened Members
  import opened Patterns
  import opened ClassPattern
  import opened Braces
  import opened Dedup
  import opened CSharpParser
  import opened Parser

  // ------------------------------------------------------------ comparator

  /** The visibility order `sortMembersByStrategy` hands to the comparator. */
  const AccessModifierOrder: seq<string> := ["public", "protected", "private"]

  /** `order.indexOf(accessModifier)`: -1 for a visibility not in the list. */
  function AccessIndex(visibility: string): int {
    IndexOf(AccessModifierOrder, visibility)
  }

  /** The name comparison, by character code; the locale-aware collation of
      `localeCompare` is not modelled. */
  function StrCompare(a: string, b: string): (r: int)
    ensures -1 <= r <= 1
  {
    if a == [] then (if b == [] then 0 else -1)
    else if b == [] then 1
    else if a[0] < b[0] then -1
    else if a[0] > b[0] then 1
    else StrCompare(a[1..], b[1..])
  }

  /** Lexicographic order, written independently of `StrCompare`: `a` is a
      proper prefix of `b`, or the two first differ at a position where `a`
      has the smaller character. */
  ghost predicate LexLess(a: string, b: string) {
    || (|a| < |b| && a == b[..|a|])
    || exists i :: 0 <= i < |a| && i < |b| && a[..i] == b[..i] && a[i] < b[i]
  }

  /** The name comparison is zero only on equal names and flips sign when
      its arguments are swapped. */
  lemma {:induction false} StrCompareFacts(a: string, b: string)
    ensures StrCompare(a, b) == 0 <==> a == b
    ensures StrCompare(b, a) == -StrCompare(a, b)
    decreases |a|
  {
    if a != [] && b != [] && a[0] == b[0] {
      StrCompareFacts(a[1..], b[1..]);
      assert a == [a[0]] + a[1..] && b == [b[0]] + b[1..];
    }
  }

  lemma {:induction false} StrCompareTransitive(a: string, b: string, c: string)
    requires StrCompare(a, b) <= 0 && StrCompare(b, c) <= 0
    ensures StrCompare(a, c) <= 0
    decreases |a|
  {
    if a != [] && b != [] && c != [] && a[0] == b[0] == c[0] {
      StrCompareTransitive(a[1..], b[1..], c[1..]);
    }
  }

  /** The name comparison is lexicographic order. */
  lemma {:induction false} StrCompareIsLexLess(a: string, b: string)
    ensures StrCompare(a, b) < 0 <==> LexLess(a, b)
    decreases |a|
  {
    if a == [] || b == [] {
    } else if a[0] < b[0] {
      assert a[..0] == b[..0];
    } else if a[0] > b[0] {
      forall i | 0 < i <= |a| && i <= |b|
        ensures a[..i] != b[..i]
      {
        assert a[..i][0] != b[..i][0];
      }
      assert a[..|a|] == a;
    } else {
      StrCompareIsLexLess(a[1..], b[1..]);
      LexLessTail(a, b);
      LexLessCons(a, b);
    }
  }

  /** Lexicographic order on two strings with the same first character
      implies the order of the rest... */
  lemma LexLessTail(a: string, b: string)
    requires a != [] && b != [] && a[0] == b[0]
    ensures LexLess(a, b) ==> LexLess(a[1..], b[1..])
  {
    var a', b' := a[1..], b[1..];
    if LexLess(a, b) {
      if |a| < |b| && a == b[..|a|] {
        assert a' == b'[..|a'|];
      } else {
        var i :| 0 <= i < |a| && i < |b| && a[..i] == b[..i] && a[i] < b[i];
        assert i > 0;
        var x, y := a'[..i - 1], b'[..i - 1];
        forall k | 0 <= k < |x|
          ensures x[k] == y[k]
        {
          assert a[..i][k + 1] == b[..i][k + 1];
        }
        assert x == y;
        assert a'[i - 1] < b'[i - 1];
      }
    }
  }

  /** ...and is implied by it. */
  lemma LexLessCons(a: string, b: string)
    requires a != [] && b != [] && a[0] == b[0]
    ensures LexLess(a[1..], b[1..]) ==> LexLess(a, b)
  {
    var a', b' := a[1..], b[1..];
    if LexLess(a', b') {
      if |a'| < |b'| && a' == b'[..|a'|] {
        assert a == [a[0]] + a' && b[..|a|] == [b[0]] + b'[..|a'|];
      } else {
        var i :| 0 <= i < |a'| && i < |b'| && a'[..i] == b'[..i] && a'[i] < b'[i];
        assert a[..i + 1] == [a[0]] + a'[..i] && b[..i + 1] == [b[0]] + b'[..i];
        assert a[i + 1] < b[i + 1];
      }
    }
  }

  /** The comparator of `sortByAccessModifier`: kind rank first, then the
      position of the visibility in `AccessModifierOrder`, then the name. */
  function Compare(a: Member, b: Member): int {
    if a.kind != b.kind then Rank(a.kind) - Rank(b.kind)
    else
      var accessA := AccessIndex(a.visibility);
      var accessB := AccessIndex(b.visibility);
      if accessA != accessB then accessA - accessB
      else StrCompare(a.name, b.name)
  }

  /** The order the comparator means, written as a key comparison: kind rank,
      then visibility index, then the names in lexicographic order. */
  ghost predicate KeyBefore(a: Member, b: Member) {
    || Rank(a.kind) < Rank(b.kind)
    || (a.kind == b.kind && AccessIndex(a.visibility) < AccessIndex(b.visibility))
    || (a.kind == b.kind && AccessIndex(a.visibility) == AccessIndex(b.visibility) && LexLess(a.name, b.name))
  }

  /** The comparator puts `a` first exactly when its key comes first, and
      ties exactly on equal keys. */
  lemma CompareIsKeyOrder(a: Member, b: Member)
    ensures Compare(a, b) < 0 <==> KeyBefore(a, b)
    ensures Compare(a, b) == 0 <==>
              a.kind == b.kind && AccessIndex(a.visibility) == AccessIndex(b.visibility) && a.name == b.name
  {
    StrCompareIsLexLess(a.name, b.name);
    StrCompareFacts(a.name, b.name);
  }

  /** Within a kind, a visibility outside the list (such as `internal`) sorts
      before `public`, which sorts before `protected`, which sorts before
      `private`. */
  lemma VisibilityOrder(a: Member, b: Member)
    requires a.kind == b.kind
    ensures a.visibility !in AccessModifierOrder && b.visibility == "public" ==> Compare(a, b) < 0
    ensures a.visibility == "public" && b.visibility == "protected" ==> Compare(a, b) < 0
    ensures a.visibility == "protected" && b.visibility == "private" ==> Compare(a, b) < 0
  {
  }

  /** What `Array.prototype.sort` needs of a comparator for its result to be
      defined: swapping the arguments flips the sign, and "not after" is
      transitive. (The transitivity is used only on three comparisons that
      are already at hand, which keeps the proofs about sorting small.) */
  ghost predicate Consistent<T(!new)>(cmp: (T, T) -> int) {
    && (forall x, y :: cmp(y, x) == -cmp(x, y))
    && (forall x, y, z {:trigger cmp(x, y), cmp(y, z), cmp(x, z)} ::
          cmp(x, y) <= 0 && cmp(y, z) <= 0 ==> cmp(x, z) <= 0)
  }

  lemma CompareTransitive(a: Member, b: Member, c: Member)
    requires Compare(a, b) <= 0 && Compare(b, c) <= 0
    ensures Compare(a, c) <= 0
  {
    if a.kind == b.kind == c.kind && AccessIndex(a.visibility) == AccessIndex(b.visibility) == AccessIndex(c.visibility) {
      StrCompareTransitive(a.name, b.name, c.name);
    }
  }

  /** The comparator of `sortByAccessModifier` is consistent. */
  lemma CompareIsConsistent()
    ensures Consistent(Compare)
  {
    forall x, y
      ensures Compare(y, x) == -Compare(x, y)
    {
      StrCompareFacts(x.name, y.name);
    }
    forall x, y, z | Compare(x, y) <= 0 && Compare(y, z) <= 0
      ensures Compare(x, z) <= 0
    {
      CompareTransitive(x, y, z);
    }
  }

  // ------------------------------------------------------------------ sort

  /** `ms` is in the order of `cmp`: no member comes after one that `cmp`
      puts after it. */
  ghost predicate SortedBy<T>(ms: seq<T>, cmp: (T, T) -> int) {
    forall i, j :: 0 <= i < j < |ms| ==> cmp(ms[i], ms[j]) <= 0
  }

  /** `x` put into `ms` before the first member it does not come after. */
  function Insert<T>(x: T, ms: seq<T>, cmp: (T, T) -> int): seq<T> {
    if ms == [] || cmp(x, ms[0]) <= 0 then [x] + ms else [ms[0]] + Insert(x, ms[1..], cmp)
  }

  /** Sorting by insertion, as a function; `InsertionSortFacts` states what
      it does. */
  function InsertionSort<T>(ms: seq<T>, cmp: (T, T) -> int): seq<T> {
    if ms == [] then [] else Insert(ms[0], InsertionSort(ms[1..], cmp), cmp)
  }

  lemma SortedTail<T>(ms: seq<T>, cmp: (T, T) -> int)
    requires SortedBy(ms, cmp) && ms != []
    ensures SortedBy(ms[1..], cmp)
  {
    assert forall k :: 0 <= k < |ms| - 1 ==> ms[1..][k] == ms[k + 1];
  }

  /** A member that comes before every member of a sorted list can be put
      in front of it. */
  lemma SortedCons<T>(x: T, rest: seq<T>, cmp: (T, T) -> int)
    requires SortedBy(rest, cmp)
    requires forall k :: 0 <= k < |rest| ==> cmp(x, rest[k]) <= 0
    ensures SortedBy([x] + rest, cmp)
  {
    var r := [x] + rest;
    forall i, j | 0 <= i < j < |r|
      ensures cmp(r[i], r[j]) <= 0
    {
      assert r[j] == rest[j - 1];
      if i > 0 {
        assert r[i] == rest[i - 1];
      }
    }
  }

  /** The head of a sorted list comes before each of its members. */
  lemma HeadFirst<T(!new)>(ms: seq<T>, cmp: (T, T) -> int)
    requires Consistent(cmp) && SortedBy(ms, cmp) && ms != []
    ensures forall y :: y in multiset(ms) ==> cmp(ms[0], y) <= 0
  {
    forall y | y in multiset(ms)
      ensures cmp(ms[0], y) <= 0
    {
      var k :| 0 <= k < |ms| && ms[k] == y;
      if k == 0 {
        assert cmp(y, y) == -cmp(y, y);
      } else {
        assert cmp(ms[0], ms[k]) <= 0;
      }
    }
  }

  lemma {:induction false} InsertFacts<T(!new)>(x: T, ms: seq<T>, cmp: (T, T) -> int)
    requires Consistent(cmp) && SortedBy(ms, cmp)
    ensures multiset(Insert(x, ms, cmp)) == multiset(ms) + multiset{x}
    ensures SortedBy(Insert(x, ms, cmp), cmp)
    decreases |ms|
  {
    if ms == [] || cmp(x, ms[0]) <= 0 {
      if ms != [] {
        HeadFirst(ms, cmp);
        forall k | 0 <= k < |ms|
          ensures cmp(x, ms[k]) <= 0
        {
          assert ms[k] in multiset(ms);
          assert cmp(ms[0], ms[k]) <= 0;
        }
      }
      SortedCons(x, ms, cmp);
    } else {
      var head, tail := ms[0], ms[1..];
      assert ms == [head] + tail;
      SortedTail(ms, cmp);
      InsertFacts(x, tail, cmp);
      var rest := Insert(x, tail, cmp);
      HeadFirst(ms, cmp);
      forall k | 0 <= k < |rest|
        ensures cmp(head, rest[k]) <= 0
      {
        var y := rest[k];
        assert y in multiset(rest);
        if y == x {
          assert cmp(y, head) == -cmp(head, y);
        } else {
          assert y in multiset(tail);
          assert multiset(ms) == multiset{head} + multiset(tail);
        }
      }
      SortedCons(head, rest, cmp);
    }
  }

  /** Sorting by insertion returns its input, reordered, in the order of
      `cmp`. */
  lemma {:induction false} InsertionSortFacts<T(!new)>(ms: seq<T>, cmp: (T, T) -> int)
    requires Consistent(cmp)
    ensures multiset(InsertionSort(ms, cmp)) == multiset(ms)
    ensures SortedBy(InsertionSort(ms, cmp), cmp)
    decreases |ms|
  {
    if ms != [] {
      var rest := InsertionSort(ms[1..], cmp);
      InsertionSortFacts(ms[1..], cmp);
      InsertFacts(ms[0], rest, cmp);
      assert InsertionSort(ms, cmp) == Insert(ms[0], rest, cmp);
      TailMultiset(ms);
    }
  }

  /** `cmp` ties no two different members of `bag`. */
  ghost predicate NoTies<T(!new)>(bag: multiset<T>, cmp: (T, T) -> int) {
    forall x, y :: x in bag && y in bag && cmp(x, y) == 0 ==> x == y
  }

  lemma NoTiesWithin<T(!new)>(a: multiset<T>, b: multiset<T>, cmp: (T, T) -> int)
    requires a <= b && NoTies(b, cmp)
    ensures NoTies(a, cmp)
  {
  }

  lemma TailMultiset<T>(s: seq<T>)
    requires s != []
    ensures multiset(s) == multiset{s[0]} + multiset(s[1..])
  {
    assert s == [s[0]] + s[1..];
  }

  lemma SameHeadAndTail<T>(s: seq<T>, t: seq<T>)
    requires s != [] && t != [] && s[0] == t[0] && s[1..] == t[1..]
    ensures s == t
  {
    assert s == [s[0]] + s[1..] && t == [t[0]] + t[1..];
  }

  /** Two orderings of the same members that are both sorted by a comparator
      that ties no two of them are the same list: which sort algorithm
      produced it makes no difference. */
  lemma {:induction false} SortedUnique<T(!new)>(s: seq<T>, t: seq<T>, cmp: (T, T) -> int)
    requires Consistent(cmp) && SortedBy(s, cmp) && SortedBy(t, cmp)
    requires multiset(s) == multiset(t) && NoTies(multiset(s), cmp)
    ensures s == t
    decreases |s|
  {
    assert |t| == |multiset(t)| == |s|;
    if s != [] {
      var x, y := s[0], t[0];
      assert y in multiset(s) && x in multiset(t) by {
        assert y in t && x in s;
      }
      HeadFirst(s, cmp);
      HeadFirst(t, cmp);
      assert cmp(x, y) <= 0 && cmp(y, x) <= 0;
      assert cmp(y, x) == -cmp(x, y);
      assert x == y;
      TailMultiset(s);
      TailMultiset(t);
      var rs, rt := multiset(s[1..]), multiset(t[1..]);
      assert rs == rt by {
        assert multiset{x} + rs == multiset{x} + rt;
      }
      NoTiesWithin(rs, multiset(s), cmp);
      SortedTail(s, cmp);
      SortedTail(t, cmp);
      SortedUnique(s[1..], t[1..], cmp);
      SameHeadAndTail(s, t);
    }
  }

  /** `sortByAccessModifier` as a function. */
  function SortByAccessModifier(ms: seq<Member>): seq<Member> {
    InsertionSort(ms, Compare)
  }

  /** Members with pairwise different names share no key, so the comparator
      ties none of them. */
  lemma UniqueNamesNoTies(ms: seq<Member>)
    requires NamesUnique(ms)
    ensures NoTies(multiset(ms), Compare)
  {
    forall x, y | x in multiset(ms) && y in multiset(ms) && Compare(x, y) == 0
      ensures x == y
    {
      CompareIsKeyOrder(x, y);
      var i :| 0 <= i < |ms| && ms[i] == x;
      var j :| 0 <= j < |ms| && ms[j] == y;
      assert i == j;
    }
  }

  /** What `sortByAccessModifier` promises: a reordering of its input in
      comparator order; for members with distinct names every sorted
      reordering is this one, so a sorted list is left as it is and sorting
      twice changes nothing. */
  lemma SortFacts(ms: seq<Member>, r: seq<Member>)
    ensures multiset(SortByAccessModifier(ms)) == multiset(ms)
    ensures SortedBy(SortByAccessModifier(ms), Compare)
    ensures NamesUnique(ms) && SortedBy(r, Compare) && multiset(r) == multiset(ms) ==>
              r == SortByAccessModifier(ms)
    ensures NamesUnique(ms) && SortedBy(ms, Compare) ==> SortByAccessModifier(ms) == ms
    ensures NamesUnique(ms) ==> SortByAccessModifier(SortByAccessModifier(ms)) == SortByAccessModifier(ms)
  {
    CompareIsConsistent();
    InsertionSortFacts(ms, Compare);
    var sorted := SortByAccessModifier(ms);
    if NamesUnique(ms) {
      UniqueNamesNoTies(ms);
      if SortedBy(r, Compare) && multiset(r) == multiset(ms) {
        SortedUnique(r, sorted, Compare);
      }
      if SortedBy(ms, Compare) {
        SortedUnique(sorted, ms, Compare);
      }
      InsertionSortFacts(sorted, Compare);
      SortedUnique(SortByAccessModifier(sorted), sorted, Compare);
    }
  }

  /** A member whose name is not in a name-unique list can be put in front
      of it. */
  lemma ConsUnique(x: Member, rest: seq<Member>)
    requires NamesUnique(rest) && x.name !in Names(rest)
    ensures NamesUnique([x] + rest)
  {
    var r := [x] + rest;
    forall i, j | 0 <= i < j < |r|
      ensures r[i].name != r[j].name
    {
      assert r[j] == rest[j - 1] && r[j] in rest;
      if i > 0 {
        assert r[i] == rest[i - 1];
      }
    }
  }

  lemma ConsNames(x: Member, rest: seq<Member>)
    ensures Names([x] + rest) == {x.name} + Names(rest)
  {
    NamesConcat([x], rest);
    assert Names([x]) == {x.name};
  }

  lemma NameAbsent(name: string, ms: seq<Member>)
    requires forall k :: 0 <= k < |ms| ==> ms[k].name != name
    ensures name !in Names(ms)
  {
  }

  /** Insertion adds the member's name and keeps the names distinct. */
  lemma {:induction false} InsertNames(x: Member, ms: seq<Member>, cmp: (Member, Member) -> int)
    ensures Names(Insert(x, ms, cmp)) == Names(ms) + {x.name}
    ensures NamesUnique(ms) && x.name !in Names(ms) ==> NamesUnique(Insert(x, ms, cmp))
    decreases |ms|
  {
    if ms == [] || cmp(x, ms[0]) <= 0 {
      ConsNames(x, ms);
      if NamesUnique(ms) && x.name !in Names(ms) {
        ConsUnique(x, ms);
      }
    } else {
      var head, tail := ms[0], ms[1..];
      assert ms == [head] + tail;
      ConsNames(head, tail);
      InsertNames(x, tail, cmp);
      ConsNames(head, Insert(x, tail, cmp));
      if NamesUnique(ms) && x.name !in Names(ms) {
        assert NamesUnique(tail) by {
          assert forall k :: 0 <= k < |tail| ==> tail[k] == ms[k + 1];
        }
        assert head.name !in Names(tail) by {
          forall k | 0 <= k < |tail|
            ensures tail[k].name != head.name
          {
            assert tail[k] == ms[k + 1];
          }
          NameAbsent(head.name, tail);
        }
        ConsUnique(head, Insert(x, tail, cmp));
      }
    }
  }

  /** Sorting keeps the names, and keeps them distinct. */
  lemma {:induction false} InsertionSortNames(ms: seq<Member>, cmp: (Member, Member) -> int)
    ensures Names(InsertionSort(ms, cmp)) == Names(ms)
    ensures NamesUnique(ms) ==> NamesUnique(InsertionSort(ms, cmp))
    decreases |ms|
  {
    if ms != [] {
      var head, tail := ms[0], ms[1..];
      assert ms == [head] + tail;
      ConsNames(head, tail);
      InsertionSortNames(tail, cmp);
      InsertNames(head, InsertionSort(tail, cmp), cmp);
      if NamesUnique(ms) {
        assert NamesUnique(tail) by {
          assert forall k :: 0 <= k < |tail| ==> tail[k] == ms[k + 1];
        }
        assert head.name !in Names(tail) by {
          forall k | 0 <= k < |tail|
            ensures tail[k].name != head.name
          {
            assert tail[k] == ms[k + 1];
          }
          NameAbsent(head.name, tail);
        }
      }
    }
  }

  // -------------------------------------------------------------- grouping

  /** `sortedMembers.filter(m => m.type === kind)`. */
  function OfKind(ms: seq<Member>, kind: Kind): seq<Member> {
    if ms == [] then [] else (if ms[0].kind == kind then [ms[0]] else []) + OfKind(ms[1..], kind)
  }

  /** A group holds exactly the members of its kind. */
  lemma {:induction false} OfKindMembers(ms: seq<Member>, kind: Kind)
    ensures forall m :: m in OfKind(ms, kind) <==> m in ms && m.kind == kind
    decreases |ms|
  {
    if ms != [] {
      OfKindMembers(ms[1..], kind);
      assert ms == [ms[0]] + ms[1..];
    }
  }

  /** The three groups split the members: every member is in exactly the
      group of its kind, as often as in the list. */
  lemma {:induction false} GroupsPartition(ms: seq<Member>)
    ensures multiset(OfKind(ms, Field)) + multiset(OfKind(ms, Property)) + multiset(OfKind(ms, Method)) == multiset(ms)
    decreases |ms|
  {
    if ms != [] {
      var x, tail := ms[0], ms[1..];
      var f, p, m := OfKind(tail, Field), OfKind(tail, Property), OfKind(tail, Method);
      GroupsPartition(tail);
      OfKindHead(ms);
      TailMultiset(ms);
      match x.kind
      case Field =>
        assert multiset(OfKind(ms, Field)) == multiset{x} + multiset(f);
      case Property =>
        assert multiset(OfKind(ms, Property)) == multiset{x} + multiset(p);
      case Method =>
        assert multiset(OfKind(ms, Method)) == multiset{x} + multiset(m);
    }
  }

  /** The kinds of `ms` never go down a rank. */
  ghost predicate RankSorted(ms: seq<Member>) {
    forall i, j :: 0 <= i < j < |ms| ==> Rank(ms[i].kind) <= Rank(ms[j].kind)
  }

  lemma SortedRanks(ms: seq<Member>)
    requires SortedBy(ms, Compare)
    ensures RankSorted(ms)
  {
    forall i, j | 0 <= i < j < |ms|
      ensures Rank(ms[i].kind) <= Rank(ms[j].kind)
    {
      assert Compare(ms[i], ms[j]) <= 0;
    }
  }

  lemma {:induction false} NoneOfKind(ms: seq<Member>, kind: Kind)
    requires forall k :: 0 <= k < |ms| ==> ms[k].kind != kind
    ensures OfKind(ms, kind) == []
    decreases |ms|
  {
    if ms != [] {
      NoneOfKind(ms[1..], kind);
    }
  }

  /** The groups of a list are those of its tail with the head put in
      front of its own group. */
  lemma OfKindHead(ms: seq<Member>)
    requires ms != []
    ensures var f, p, m := OfKind(ms[1..], Field), OfKind(ms[1..], Property), OfKind(ms[1..], Method);
            && OfKind(ms, Field) == (if ms[0].kind == Field then [ms[0]] + f else f)
            && OfKind(ms, Property) == (if ms[0].kind == Property then [ms[0]] + p else p)
            && OfKind(ms, Method) == (if ms[0].kind == Method then [ms[0]] + m else m)
  {
    var f, p, m := OfKind(ms[1..], Field), OfKind(ms[1..], Property), OfKind(ms[1..], Method);
    assert [] + f == f && [] + p == p && [] + m == m;
  }

  lemma Regroup(x: seq<Member>, f: seq<Member>, p: seq<Member>, m: seq<Member>)
    ensures (x + f) + p + m == x + (f + p + m)
    ensures f == [] ==> f + (x + p) + m == x + (f + p + m)
    ensures f == [] && p == [] ==> f + p + (x + m) == x + (f + p + m)
  {
  }

  /** Members in rank order are the fields, then the properties, then the
      methods: the grouping undoes nothing of the sort. */
  lemma {:induction false} GroupsOfRankSorted(ms: seq<Member>)
    requires RankSorted(ms)
    ensures OfKind(ms, Field) + OfKind(ms, Property) + OfKind(ms, Method) == ms
    decreases |ms|
  {
    if ms != [] {
      var tail := ms[1..];
      RankSortedTail(ms);
      GroupsOfRankSorted(tail);
      var f, p, m := OfKind(tail, Field), OfKind(tail, Property), OfKind(tail, Method);
      OfKindHead(ms);
      if ms[0].kind == Property {
        NoneOfKind(tail, Field);
      } else if ms[0].kind == Method {
        NoneOfKind(tail, Field);
        NoneOfKind(tail, Property);
      }
      Regroup([ms[0]], f, p, m);
      TailCons(ms);
    }
  }

  lemma RankSortedTail(ms: seq<Member>)
    requires RankSorted(ms) && ms != []
    ensures RankSorted(ms[1..])
    ensures forall k :: 0 <= k < |ms[1..]| ==> Rank(ms[0].kind) <= Rank(ms[1..][k].kind)
  {
    assert forall k :: 0 <= k < |ms[1..]| ==> ms[1..][k] == ms[k + 1];
  }

  lemma TailCons(ms: seq<Member>)
    requires ms != []
    ensures [ms[0]] + ms[1..] == ms
  {
  }


  // ----------------------------------------------------------- indentation

  /** `document.lineAt(...).text` for the line holding offset `k`: the text
      between the line breaks around it, without a `\r` before the `\n`. */
  function LineText(text: string, k: nat): (line: string)
    requires k <= |text|
  {
    var line := text[LineStart(text, k)..RunEnd(text, k, c => c != '\n')];
    if line != [] && line[|line| - 1] == '\r' then line[..|line| - 1] else line
  }

  /** `baseIndent + '    '`: the match of `^\s*` on the line holding
      `classStart` (its leading whitespace), one level deeper. */
  function Indent(text: string, classStart: nat): string
    requires classStart <= |text|
  {
    LeadingSpace(LineText(text, classStart)) + "    "
  }

  /** The line holding `k` is part of the text starting at the line start,
      and it reaches past `k` unless `k` ends it. */
  lemma LineTextFacts(text: string, k: nat)
    requires k <= |text|
    ensures var lineStart := LineStart(text, k);
            var line := LineText(text, k);
            && lineStart + |line| <= |text|
            && line == text[lineStart..lineStart + |line|]
            && (forall j :: 0 <= j < |line| ==> line[j] != '\n')
            && (0 < k && text[k - 1] != '\n' && text[k - 1] != '\r' ==> lineStart < k <= lineStart + |line|)
  {
    RunStartFacts(text, k, c => c != '\n');
    RunEndFacts(text, k, c => c != '\n');
  }

  /** With `classStart` just after the class's `{`, the indent is the
      whitespace that starts the line of that brace, and four spaces more:
      at least four characters, all whitespace, no line break. */
  lemma IndentFacts(text: string, classStart: nat)
    requires OpensBody(text, classStart)
    ensures var lineStart := LineStart(text, classStart);
            var base := LeadingSpace(LineText(text, classStart));
            && lineStart + |base| < classStart
            && base == text[lineStart..lineStart + |base|]
            && !IsSpace(text[lineStart + |base|])
            && Indent(text, classStart) == base + "    "
            && |Indent(text, classStart)| >= 4
            && (forall k :: 0 <= k < |Indent(text, classStart)| ==>
                  IsSpace(Indent(text, classStart)[k]) && Indent(text, classStart)[k] != '\n')
  {
    var lineStart := LineStart(text, classStart);
    var line := LineText(text, classStart);
    LineTextFacts(text, classStart);
    var brace := classStart - 1 - lineStart;
    assert line[brace] == text[classStart - 1];
    var base := LeadingSpace(line);
    LeadingSpaceFacts(line);
    assert forall k :: 0 <= k < |base| ==> base[k] == line[k];
    assert !IsSpace(line[brace]);
    assert |base| <= brace;
    assert !IsSpace(line[|base|]);
    assert line[|base|] == text[lineStart + |base|];
    assert forall k :: 0 <= k < |base| ==> base[k] == text[lineStart + k];
    var indent := Indent(text, classStart);
    assert forall k :: 0 <= k < |indent| ==> indent[k] == if k < |base| then base[k] else ' ';
  }

  // ------------------------------------------------------------- rendering

  /** One line of a method as `sortMembers` re-indents it: a blank line
      becomes empty, the first line gets `indent`, the others four spaces
      more, each followed by the line trimmed. */
  function FormatLine(line: string, first: bool, indent: string): string {
    var trimmed := Trim(line);
    if trimmed == "" then "" else (if first then indent else indent + "    ") + trimmed
  }

  /** `m.text.split('\n').map(...)`: every line of the method re-indented. */
  function MethodLines(t: string, indent: string): seq<string> {
    var lines := Split(t, '\n');
    seq(|lines|, i requires 0 <= i < |lines| => FormatLine(lines[i], i == 0, indent))
  }

  /** The method piece: its re-indented lines, the empty ones dropped, joined
      with line breaks. */
  function FormatMethod(t: string, indent: string): string {
    Join(Compact(MethodLines(t, indent)), "\n")
  }

  ghost predicate IsIndent(indent: string) {
    forall k :: 0 <= k < |indent| ==> IsSpace(indent[k]) && indent[k] != '\n'
  }

  /** Re-indenting a line keeps what it says: the trimmed line is the same,
      and only a blank line becomes empty. */
  lemma FormatLineContent(line: string, first: bool, indent: string)
    requires IsIndent(indent)
    ensures Trim(FormatLine(line, first, indent)) == Trim(line)
    ensures FormatLine(line, first, indent) == "" <==> Trim(line) == ""
    ensures '\n' !in line ==> '\n' !in FormatLine(line, first, indent)
  {
    var trimmed := Trim(line);
    TrimIsTrimmed(line);
    if trimmed != "" {
      var prefix := if first then indent else indent + "    ";
      assert forall k :: 0 <= k < |prefix| ==> IsSpace(prefix[k]) && prefix[k] != '\n';
      TrimAfterSpace(prefix, trimmed);
      if '\n' !in line {
        TrimKeeps(line, '\n');
      }
    }
  }

  lemma JoinNonEmpty(xs: seq<string>, sep: string)
    requires xs != [] && xs[0] != ""
    ensures Join(xs, sep) != "" && Join(xs, sep)[..|xs[0]|] == xs[0]
  {
  }

  /** What a method piece is: each source line re-indented with its content
      kept and the blank ones dropped, the first line behind `indent` and
      every later one behind `indent` and four more spaces; splitting the
      piece at line breaks gives these lines back; a non-blank first line
      (as in a method starting with a non-blank character) makes the piece
      non-empty and its first line. */
  lemma FormatMethodFacts(t: string, indent: string)
    requires IsIndent(indent)
    ensures var lines := Split(t, '\n');
            var formatted := MethodLines(t, indent);
            var out := Compact(formatted);
            && |formatted| == |lines|
            && (forall k :: 0 <= k < |lines| ==> Trim(formatted[k]) == Trim(lines[k]))
            && (forall k :: 0 <= k < |lines| ==> (formatted[k] == "" <==> Trim(lines[k]) == ""))
            && (Trim(lines[0]) != "" ==> formatted[0] == indent + Trim(lines[0]))
            && (forall k :: 0 < k < |lines| && Trim(lines[k]) != "" ==>
                  formatted[k] == indent + "    " + Trim(lines[k]))
            && (forall k :: 0 <= k < |out| ==> out[k] != "" && '\n' !in out[k])
            && (out != [] ==> Split(FormatMethod(t, indent), '\n') == out)
            && (Trim(lines[0]) != "" ==>
                  out != [] && out[0] == indent + Trim(lines[0]) && FormatMethod(t, indent) != "")
            && (t != [] && !IsSpace(t[0]) ==> Trim(lines[0]) != "")
  {
    var lines := Split(t, '\n');
    var formatted := MethodLines(t, indent);
    forall k | 0 <= k < |lines|
      ensures Trim(formatted[k]) == Trim(lines[k])
      ensures formatted[k] == "" <==> Trim(lines[k]) == ""
      ensures '\n' !in formatted[k]
    {
      FormatLineContent(lines[k], k == 0, indent);
    }
    var out := Compact(formatted);
    CompactKeeps(formatted, '\n');
    if out != [] {
      SplitJoin(out, '\n');
    }
    if Trim(lines[0]) != "" {
      assert formatted[0] == indent + Trim(lines[0]);
      assert out == [formatted[0]] + Compact(formatted[1..]);
      JoinNonEmpty(out, "\n");
    }
    if t != [] && !IsSpace(t[0]) {
      SplitFirst(t, '\n');
      TrimNonEmpty(lines[0]);
    }
  }

  /** `...group.map(m => indent + m.text)`, the fields and the properties. */
  function Indented(group: seq<Member>, indent: string): seq<Option<string>> {
    seq(|group|, i requires 0 <= i < |group| => Some(indent + group[i].text))
  }

  /** `...methods.map(...)`. */
  function MethodPieces(group: seq<Member>, indent: string): seq<Option<string>> {
    seq(|group|, i requires 0 <= i < |group| => Some(FormatMethod(group[i].text, indent)))
  }

  /** `group.length > 0 ? '' : null`. */
  function Separator(group: seq<Member>): Option<string> {
    if |group| > 0 then Some("") else None
  }

  /** The array `sortMembers` builds before `filter(Boolean)`. */
  function Pieces(fields: seq<Member>, properties: seq<Member>, methods: seq<Member>, indent: string): seq<Option<string>> {
    Indented(fields, indent) + [Separator(fields)] + Indented(properties, indent) + [Separator(properties)] +
    MethodPieces(methods, indent)
  }

  /** `filter(Boolean)` on strings and nulls: keeps the non-empty strings. */
  function Truthy(xs: seq<Option<string>>): seq<string> {
    if xs == [] then []
    else (if xs[0].Some? && xs[0].value != "" then [xs[0].value] else []) + Truthy(xs[1..])
  }

  /** The text that replaces the class body. */
  function Replacement(sorted: seq<Member>, indent: string): string {
    var pieces := Pieces(OfKind(sorted, Field), OfKind(sorted, Property), OfKind(sorted, Method), indent);
    "\n" + Join(Truthy(pieces), "\n\n") + "\n"
  }

  /** How one member is rendered: a method re-indented line by line, any
      other member as its text behind `indent`. */
  function Rendered(m: Member, indent: string): string {
    if m.kind == Method then FormatMethod(m.text, indent) else indent + m.text
  }

  function RenderAll(ms: seq<Member>, indent: string): seq<string> {
    seq(|ms|, i requires 0 <= i < |ms| => Rendered(ms[i], indent))
  }

  function Somes(xs: seq<string>): seq<Option<string>> {
    seq(|xs|, i requires 0 <= i < |xs| => Some(xs[i]))
  }

  lemma {:induction false} TruthyAppend(a: seq<Option<string>>, b: seq<Option<string>>)
    ensures Truthy(a + b) == Truthy(a) + Truthy(b)
    decreases |a|
  {
    if a == [] {
      assert a + b == b;
    } else {
      assert (a + b)[1..] == a[1..] + b;
      TruthyAppend(a[1..], b);
    }
  }

  /** Separators that are falsy drop out of the joined pieces. */
  lemma TruthySkips(a: seq<Option<string>>, x: Option<string>, b: seq<Option<string>>,
                    y: Option<string>, c: seq<Option<string>>)
    requires x.None? || x.value == ""
    requires y.None? || y.value == ""
    ensures Truthy(a + [x] + b + [y] + c) == Truthy(a) + Truthy(b) + Truthy(c)
  {
    TruthyAppend(a + [x] + b + [y], c);
    TruthyAppend(a + [x] + b, [y]);
    TruthyAppend(a + [x], b);
    TruthyAppend(a, [x]);
    assert Truthy([x]) == [] && Truthy([y]) == [];
    assert Truthy(a) + [] == Truthy(a);
    assert Truthy(a) + Truthy(b) + [] == Truthy(a) + Truthy(b);
  }

  lemma CompactThree(a: seq<string>, b: seq<string>, c: seq<string>)
    ensures Compact(a) + Compact(b) + Compact(c) == Compact(a + b + c)
  {
    CompactAppend(a, b);
    CompactAppend(a + b, c);
  }

  lemma {:induction false} TruthySomes(xs: seq<string>)
    ensures Truthy(Somes(xs)) == Compact(xs)
    decreases |xs|
  {
    if xs != [] {
      assert Somes(xs)[1..] == Somes(xs[1..]);
      TruthySomes(xs[1..]);
    }
  }

  lemma RenderAllAppend(a: seq<Member>, b: seq<Member>, indent: string)
    ensures RenderAll(a + b, indent) == RenderAll(a, indent) + RenderAll(b, indent)
  {
  }

  /** A group's pieces are its members rendered. */
  lemma GroupPieces(ms: seq<Member>, kind: Kind, indent: string)
    ensures kind != Method ==> Indented(OfKind(ms, kind), indent) == Somes(RenderAll(OfKind(ms, kind), indent))
    ensures kind == Method ==> MethodPieces(OfKind(ms, kind), indent) == Somes(RenderAll(OfKind(ms, kind), indent))
  {
    var g := OfKind(ms, kind);
    OfKindMembers(ms, kind);
    assert forall i :: 0 <= i < |g| ==> g[i] in g;
  }

  /** The group separators never reach the output (an empty string is as
      falsy as `null`): what is joined is every member of the three groups,
      fields first, rendered, with the empty renderings dropped. */
  lemma PiecesRendered(ms: seq<Member>, indent: string)
    ensures var f, p, m := OfKind(ms, Field), OfKind(ms, Property), OfKind(ms, Method);
            Truthy(Pieces(f, p, m, indent)) == Compact(RenderAll(f + p + m, indent))
  {
    var f, p, m := OfKind(ms, Field), OfKind(ms, Property), OfKind(ms, Method);
    var rf, rp, rm := RenderAll(f, indent), RenderAll(p, indent), RenderAll(m, indent);
    GroupPieces(ms, Field, indent);
    GroupPieces(ms, Property, indent);
    GroupPieces(ms, Method, indent);
    assert Pieces(f, p, m, indent) == Somes(rf) + [Separator(f)] + Somes(rp) + [Separator(p)] + Somes(rm);
    TruthySkips(Somes(rf), Separator(f), Somes(rp), Separator(p), Somes(rm));
    TruthySomes(rf);
    TruthySomes(rp);
    TruthySomes(rm);
    CompactThree(rf, rp, rm);
    RenderAllAppend(f, p, indent);
    RenderAllAppend(f + p, m, indent);
  }

  /** With a non-empty indent and methods that start with a non-blank
      character, no rendering is empty: every member gets its piece. */
  lemma RenderAllNonEmpty(ms: seq<Member>, indent: string)
    requires indent != "" && IsIndent(indent)
    requires forall k :: 0 <= k < |ms| ==> ms[k].kind == Method ==> ms[k].text != "" && !IsSpace(ms[k].text[0])
    ensures Compact(RenderAll(ms, indent)) == RenderAll(ms, indent)
  {
    forall k | 0 <= k < |ms|
      ensures RenderAll(ms, indent)[k] != ""
    {
      if ms[k].kind == Method {
        FormatMethodFacts(ms[k].text, indent);
      }
    }
  }

  // --------------------------------------------------------------- outcome

  /** What one run of `sortMembers` does to the document. */
  datatype Outcome =
    | NoMembersFound                                  // the information message, no edit
    | NoClassFound                                    // an edit that changes nothing
    | Replace(start: nat, end: nat, body: string)      // `editBuilder.replace(range, body)`

  /** `sortMembers` on a document of language `language` with text `text`. */
  function SortOutcome(language: string, text: string): Outcome {
    EditFor(DocumentMembers(language, text), text)
  }

  /** What `sortMembers` does once the parser has returned `members`. */
  function EditFor(members: seq<Member>, text: string): Outcome {
    if members == [] then NoMembersFound
    else
      var sorted := SortByAccessModifier(UniqueMembers(members));
      match ClassSignature(text, 0)
      case None => NoClassFound
      case Some(classMatch) =>
        var classStart := classMatch.end;
        Replace(classStart, ClassEnd(text, classStart), Replacement(sorted, Indent(text, classStart)))
  }

  /** The document after the edit. */
  function Edited(text: string, outcome: Outcome): string
    requires outcome.Replace? ==> outcome.start <= outcome.end <= |text|
  {
    match outcome
    case Replace(start, end, body) => text[..start] + body + text[end..]
    case _ => text
  }

  /** `sortMembers`: parse, drop repeated names, sort, find the class body
      with the brace scan, group, render and replace. */
  method SortMembers(language: string, text: string) returns (outcome: Outcome)
    ensures outcome == SortOutcome(language, text)
  {
    var members := ParseDocument(language, text);
    if |members| == 0 {
      return NoMembersFound;
    }
    var uniqueMembers := UniqueMembers(members);
    var sortedMembers := SortByAccessModifier(uniqueMembers);
    var classMatch := ClassSignature(text, 0);
    if classMatch.None? {
      return NoClassFound;
    }
    var classStart := classMatch.value.end;
    var classEnd := FindClassEnd(text, classStart);
    var fields := OfKind(sortedMembers, Field);
    var properties := OfKind(sortedMembers, Property);
    var methods := OfKind(sortedMembers, Method);
    var indent := Indent(text, classStart);
    var formattedText := Join(Truthy(Pieces(fields, properties, methods, indent)), "\n\n");
    outcome := Replace(classStart, classEnd, "\n" + formattedText + "\n");
  }

  /** When `sortMembers` stops early: with no members (always so for an
      unsupported language, and for a C# document without a class), it only
      shows its message; with members but no class it makes an empty edit,
      which a C# document never reaches, since its parser found the class. */
  lemma SortOutcomeEarly(language: string, text: string)
    ensures SortOutcome(language, text).NoMembersFound? <==> DocumentMembers(language, text) == []
    ensures language != "typescript" && language != "javascript" && language != "csharp" ==>
              SortOutcome(language, text).NoMembersFound?
    ensures language == "csharp" && ClassSignature(text, 0).None? ==> SortOutcome(language, text).NoMembersFound?
    ensures language == "csharp" ==> !SortOutcome(language, text).NoClassFound?
    ensures language == "csharp" ==> SortOutcome(language, text) == EditFor(CSharpMembers(text), text)
    ensures SortOutcome(language, text).NoClassFound? <==>
              DocumentMembers(language, text) != [] && ClassSignature(text, 0).None?
  {
    DocumentMembersFacts(language, text);
    CSharpMembersEmpty(text);
  }

  /** The members `sortMembers` writes: the parsed members with the repeated
      names dropped, sorted by the comparator; no two share a name, every
      parsed name is still there, and fields, properties and methods follow
      each other in that order. */
  lemma SortedMembersFacts(members: seq<Member>)
    ensures var sorted := SortByAccessModifier(UniqueMembers(members));
            && SortedBy(sorted, Compare)
            && multiset(sorted) == multiset(UniqueMembers(members))
            && NamesUnique(sorted)
            && Names(sorted) == Names(members)
            && OfKind(sorted, Field) + OfKind(sorted, Property) + OfKind(sorted, Method) == sorted
  {
    var unique := UniqueMembers(members);
    UniqueMembersFacts(members, PassOrder);
    SortFacts(unique, unique);
    InsertionSortNames(unique, Compare);
    var sorted := SortByAccessModifier(unique);
    SortedRanks(sorted);
    GroupsOfRankSorted(sorted);
  }

  /** The new class body of a sorted member list: grouping by kind keeps the
      sorted order, and the empty groups and separators are filtered out, so
      the body is the members' renderings that are not empty, joined by
      blank lines. */
  lemma ReplacementRendered(sorted: seq<Member>, indent: string)
    requires SortedBy(sorted, Compare)
    ensures Replacement(sorted, indent) == "\n" + Join(Compact(RenderAll(sorted, indent)), "\n\n") + "\n"
  {
    SortedRanks(sorted);
    GroupsOfRankSorted(sorted);
    PiecesRendered(sorted, indent);
  }

  /** Where the edit is when there is one: it replaces exactly the text
      between the class's `{` and the `}` the brace scan stops at, and
      nothing when the braces never balance. */
  lemma EditRange(members: seq<Member>, text: string)
    requires EditFor(members, text).Replace?
    ensures ClassSignature(text, 0).Some?
    ensures var o := EditFor(members, text);
            && o.start == ClassSignature(text, 0).value.end
            && 0 < o.start <= o.end <= |text|
            && o.end == ClassEnd(text, o.start)
            && (MatchingBrace(text, o.start, o.start).Some? ==> text[o.end] == '}')
            && (MatchingBrace(text, o.start, o.start).None? ==> o.end == o.start)
  {
    var classStart := ClassSignature(text, 0).value.end;
    var o := EditFor(members, text);
    assert o == Replace(classStart, ClassEnd(text, classStart), o.body);
    ClassEndFacts(text, classStart);
  }

  /** The edit indents members by the class line's leading whitespace plus
      four spaces. */
  lemma EditIndent(members: seq<Member>, text: string)
    requires EditFor(members, text).Replace?
    ensures var indent := Indent(text, EditFor(members, text).start);
            IsIndent(indent) && |indent| >= 4
  {
    ClassIndent(text);
    assert EditFor(members, text).start == ClassSignature(text, 0).value.end;
  }

  /** The indentation taken from the line of the class found first. */
  lemma ClassIndent(text: string)
    requires ClassSignature(text, 0).Some?
    ensures var indent := Indent(text, ClassSignature(text, 0).value.end);
            IsIndent(indent) && |indent| >= 4
  {
    IndentFacts(text, ClassSignature(text, 0).value.end);
  }

  /** What the edit writes: the sorted members, each rendered behind the
      indentation, separated by blank lines, with a line break at each end. */
  lemma EditBody(members: seq<Member>, text: string)
    requires EditFor(members, text).Replace?
    ensures var o := EditFor(members, text);
            o.body == "\n" + Join(Compact(RenderAll(SortByAccessModifier(UniqueMembers(members)), Indent(text, o.start))), "\n\n") + "\n"
  {
    var classStart := ClassSignature(text, 0).value.end;
    var indent := Indent(text, classStart);
    var sorted := SortByAccessModifier(UniqueMembers(members));
    assert EditFor(members, text) == Replace(classStart, ClassEnd(text, classStart), Replacement(sorted, indent));
    SortedBody(UniqueMembers(members), indent);
  }

  /** The body rendered from any member list is its sorted members'
      non-empty renderings joined by blank lines. */
  lemma SortedBody(members: seq<Member>, indent: string)
    ensures var sorted := SortByAccessModifier(members);
            Replacement(sorted, indent) == "\n" + Join(Compact(RenderAll(sorted, indent)), "\n\n") + "\n"
  {
    CompareIsConsistent();
    InsertionSortFacts(members, Compare);
    ReplacementRendered(SortByAccessModifier(members), indent);
  }

  /** The edit leaves the document before its start and after its end as it was. */
  lemma EditedKeeps(text: string, outcome: Outcome)
    requires outcome.Replace? && outcome.start <= outcome.end <= |text|
    ensures |Edited(text, outcome)| == |text| - (outcome.end - outcome.start) + |outcome.body|
    ensures Edited(text, outcome)[..outcome.start] == text[..outcome.start]
    ensures Edited(text, outcome)[outcome.start..outcome.start + |outcome.body|] == outcome.body
    ensures Edited(text, outcome)[outcome.start + |outcome.body|..] == text[outcome.end..]
  {
    var before, after := text[..outcome.start], text[outcome.end..];
    assert Edited(text, outcome) == before + outcome.body + after;
  }

  /** Members with distinct names and texts that start with a non-blank
      character come through dropping repeats and sorting whole, and each
      yields exactly one non-empty piece of the class body. */
  lemma DistinctRenderedOnce(members: seq<Member>, indent: string)
    requires NamesUnique(members)
    requires forall k :: 0 <= k < |members| ==> members[k].text != "" && !IsSpace(members[k].text[0])
    requires indent != "" && IsIndent(indent)
    ensures UniqueMembers(members) == members
    ensures multiset(SortByAccessModifier(members)) == multiset(members)
    ensures Compact(RenderAll(SortByAccessModifier(members), indent)) == RenderAll(SortByAccessModifier(members), indent)
    ensures |RenderAll(SortByAccessModifier(members), indent)| == |members|
  {
    UniqueMembersIsKeepFirst(members);
    KeepFirstOfUnique(members, {});
    var sorted := SortByAccessModifier(members);
    SortedTextsNonBlank(members);
    RenderAllNonEmpty(sorted, indent);
    assert |sorted| == |multiset(sorted)| == |members|;
  }

  /** Sorting keeps the members, so it keeps a property of all their texts. */
  lemma SortedTextsNonBlank(members: seq<Member>)
    requires forall k :: 0 <= k < |members| ==> members[k].text != "" && !IsSpace(members[k].text[0])
    ensures multiset(SortByAccessModifier(members)) == multiset(members)
    ensures forall k :: 0 <= k < |SortByAccessModifier(members)| ==>
              SortByAccessModifier(members)[k].text != "" && !IsSpace(SortByAccessModifier(members)[k].text[0])
  {
    CompareIsConsistent();
    InsertionSortFacts(members, Compare);
    var sorted := SortByAccessModifier(members);
    forall k | 0 <= k < |sorted|
      ensures sorted[k].text != "" && !IsSpace(sorted[k].text[0])
    {
      assert sorted[k] in multiset(members);
      var i :| 0 <= i < |members| && members[i] == sorted[k];
    }
  }

  /** The C# members are reported trimmed and non-empty, under distinct names. */
  lemma CSharpMembersRenderable(text: string)
    requires ClassSignature(text, 0).Some?
    ensures NamesUnique(CSharpMembers(text))
    ensures forall k :: 0 <= k < |CSharpMembers(text)| ==>
              CSharpMembers(text)[k].text != "" && !IsSpace(CSharpMembers(text)[k].text[0])
  {
    var classStart := ClassSignature(text, 0).value.end;
    var classEnd := ClassEnd(text, classStart);
    var members := CSharpMembers(text);
    CSharpMembersFacts(text);
    forall k | 0 <= k < |members|
      ensures members[k].text != "" && !IsSpace(members[k].text[0])
    {
      assert Reported(members[k], text, classStart, classEnd);
    }
  }

  /** For C#, where the parser already reports each name once, every parsed
      member reaches the new class body exactly once, as one piece. */
  lemma CSharpSortKeepsAll(text: string)
    requires EditFor(CSharpMembers(text), text).Replace?
    ensures var o := EditFor(CSharpMembers(text), text);
            var members := CSharpMembers(text);
            var pieces := RenderAll(SortByAccessModifier(members), Indent(text, o.start));
            && UniqueMembers(members) == members
            && multiset(SortByAccessModifier(members)) == multiset(members)
            && o.body == "\n" + Join(pieces, "\n\n") + "\n"
            && |pieces| == |members|
  {
    var members := CSharpMembers(text);
    var o := EditFor(members, text);
    EditRange(members, text);
    EditIndent(members, text);
    EditBody(members, text);
    var indent := Indent(text, o.start);
    CSharpMembersRenderable(text);
    DistinctRenderedOnce(members, indent);
  }

  /** The TypeScript members are raw matches, which start with a word
      character: none of them has a blank text. */
  lemma TypeScriptMembersRenderable(text: string)
    ensures forall k :: 0 <= k < |TypeScriptMembers(text)| ==>
              TypeScriptMembers(text)[k].text != "" && !IsSpace(TypeScriptMembers(text)[k].text[0])
  {
    var members := TypeScriptMembers(text);
    TypeScriptMembersFacts(text);
    forall k | 0 <= k < |members|
      ensures members[k].text != "" && !IsSpace(members[k].text[0])
    {
      assert TypeScriptReported(members[k], text);
    }
  }

  /** Every member's text starts with a non-blank character. */
  ghost predicate Renderable(ms: seq<Member>) {
    forall k :: 0 <= k < |ms| ==> ms[k].text != "" && !IsSpace(ms[k].text[0])
  }

  /** Whenever the class body is replaced, the parser's members all have
      texts that start with a non-blank character. */
  lemma DocumentMembersRenderable(language: string, text: string)
    requires SortOutcome(language, text).Replace?
    ensures Renderable(DocumentMembers(language, text))
  {
    if language == "typescript" || language == "javascript" {
      TypeScriptMembersRenderable(text);
    } else if language == "csharp" {
      CSharpMembersEmpty(text);
      if ClassSignature(text, 0).Some? {
        CSharpMembersRenderable(text);
      }
    }
  }

  /** Dropping repeated names keeps only members of the input, so it keeps
      their texts non-blank. */
  lemma UniqueRenderable(ms: seq<Member>)
    requires Renderable(ms)
    ensures Renderable(UniqueMembers(ms))
  {
    var unique := UniqueMembers(ms);
    UniqueMembersFacts(ms, PassOrder);
    forall k | 0 <= k < |unique|
      ensures unique[k].text != "" && !IsSpace(unique[k].text[0])
    {
      assert ms[FindIndex(ms, unique[k].name)] == unique[k];
    }
  }

  /** Whatever the language, every member left after dropping the repeated
      names reaches the new class body exactly once, as one piece: the body
      holds as many pieces as there are distinct names. */
  lemma SortRendersEachOnce(language: string, text: string)
    requires SortOutcome(language, text).Replace?
    ensures var o := SortOutcome(language, text);
            var unique := UniqueMembers(DocumentMembers(language, text));
            var pieces := RenderAll(SortByAccessModifier(unique), Indent(text, o.start));
            && NamesUnique(unique)
            && Names(unique) == Names(DocumentMembers(language, text))
            && multiset(SortByAccessModifier(unique)) == multiset(unique)
            && o.body == "\n" + Join(pieces, "\n\n") + "\n"
            && |pieces| == |unique|
  {
    var members := DocumentMembers(language, text);
    var o := EditFor(members, text);
    EditIndent(members, text);
    EditBody(members, text);
    var indent := Indent(text, o.start);
    DocumentMembersRenderable(language, text);
    UniqueRenderable(members);
    var unique := UniqueMembers(members);
    UniqueMembersFacts(members, PassOrder);
    DistinctRenderedOnce(unique, indent);
  }
}
