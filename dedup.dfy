/** First-occurrence-wins deduplication by member name, in the two forms the
    extension uses: the `seenMembers` set of the extractors and the
    `filter`/`findIndex` expression of the sorter. */
module Dedup {
  import opened Members

  /** `ms.findIndex(m => m.name === name)`. */
  function FindIndex(ms: seq<Member>, name: string): (r: int)
    ensures -1 <= r < |ms|
    ensures r >= 0 ==> ms[r].name == name && forall k :: 0 <= k < r ==> ms[k].name != name
    ensures r == -1 <==> forall k :: 0 <= k < |ms| ==> ms[k].name != name
  {
    if ms == [] then -1
    else if ms[0].name == name then 0
    else
      var r := FindIndex(ms[1..], name);
      if r == -1 then -1 else r + 1
  }

  /** The members a pass emits from the candidates `cands` when the names in
      `seen` are already taken: a candidate whose name is in the set is
      skipped, any other is emitted and its name added. */
  function KeepFirst(cands: seq<Member>, seen: set<string>): seq<Member> {
    if cands == [] then []
    else if cands[0].name in seen then KeepFirst(cands[1..], seen)
    else [cands[0]] + KeepFirst(cands[1..], seen + {cands[0].name})
  }

  /** What a pass emits are candidates whose names were not taken, each name
      at most once. */
  lemma {:induction false} KeepFirstFacts(cands: seq<Member>, seen: set<string>)
    ensures forall k :: 0 <= k < |KeepFirst(cands, seen)| ==>
              KeepFirst(cands, seen)[k] in cands && KeepFirst(cands, seen)[k].name !in seen
    ensures NamesUnique(KeepFirst(cands, seen))
    decreases |cands|
  {
    if cands != [] {
      var c := cands[0];
      if c.name in seen {
        KeepFirstFacts(cands[1..], seen);
      } else {
        var rest := KeepFirst(cands[1..], seen + {c.name});
        KeepFirstFacts(cands[1..], seen + {c.name});
        assert KeepFirst(cands, seen) == [c] + rest;
      }
    }
  }

  lemma NamesConcat(a: seq<Member>, b: seq<Member>)
    ensures Names(a + b) == Names(a) + Names(b)
  {
    forall n | n in Names(a + b)
      ensures n in Names(a) + Names(b)
    {
      var m :| m in a + b && m.name == n;
      if m in a {
        assert n in Names(a);
      } else {
        assert m in b;
      }
    }
    forall n | n in Names(a) + Names(b)
      ensures n in Names(a + b)
    {
      if n in Names(a) {
        var m :| m in a && m.name == n;
        assert m in a + b;
      } else {
        var m :| m in b && m.name == n;
        assert m in a + b;
      }
    }
  }

  /** Every candidate name that is not taken already is emitted. */
  lemma {:induction false} KeepFirstNames(cands: seq<Member>, seen: set<string>)
    ensures Names(KeepFirst(cands, seen)) == Names(cands) - seen
    decreases |cands|
  {
    if cands != [] {
      var c := cands[0];
      assert cands == [c] + cands[1..];
      NamesConcat([c], cands[1..]);
      assert Names([c]) == {c.name};
      if c.name in seen {
        KeepFirstNames(cands[1..], seen);
      } else {
        var rest := KeepFirst(cands[1..], seen + {c.name});
        KeepFirstNames(cands[1..], seen + {c.name});
        NamesConcat([c], rest);
      }
    }
  }

  /** Each emitted member is the first candidate with its name. */
  lemma {:induction false} KeepFirstIsFirst(cands: seq<Member>, seen: set<string>)
    ensures forall k :: 0 <= k < |KeepFirst(cands, seen)| ==>
              var m := KeepFirst(cands, seen)[k];
              FindIndex(cands, m.name) >= 0 && cands[FindIndex(cands, m.name)] == m
    decreases |cands|
  {
    if cands != [] {
      var c := cands[0];
      var r := KeepFirst(cands, seen);
      if c.name in seen {
        KeepFirstIsFirst(cands[1..], seen);
        KeepFirstFacts(cands[1..], seen);
        assert r == KeepFirst(cands[1..], seen);
        forall k | 0 <= k < |r|
          ensures FindIndex(cands, r[k].name) >= 0 && cands[FindIndex(cands, r[k].name)] == r[k]
        {
          assert r[k].name != c.name;
          var j := FindIndex(cands[1..], r[k].name);
          assert FindIndex(cands, r[k].name) == j + 1;
          assert cands[j + 1] == cands[1..][j];
        }
      } else {
        var rest := KeepFirst(cands[1..], seen + {c.name});
        KeepFirstIsFirst(cands[1..], seen + {c.name});
        KeepFirstFacts(cands[1..], seen + {c.name});
        forall k | 0 <= k < |r|
          ensures FindIndex(cands, r[k].name) >= 0 && cands[FindIndex(cands, r[k].name)] == r[k]
        {
          if k > 0 {
            assert r[k] == rest[k - 1];
            assert r[k].name != c.name;
          }
        }
      }
    }
  }

  /** Dropping members keeps every ordering relation the candidates were in. */
  lemma {:induction false} KeepFirstChain(cands: seq<Member>, seen: set<string>, rel: (Member, Member) -> bool)
    requires Chain(cands, rel)
    ensures Chain(KeepFirst(cands, seen), rel)
    decreases |cands|
  {
    if cands != [] {
      var c := cands[0];
      assert Chain(cands[1..], rel) by {
        forall i, j | 0 <= i < j < |cands[1..]|
          ensures rel(cands[1..][i], cands[1..][j])
        {
          assert cands[1..][i] == cands[i + 1] && cands[1..][j] == cands[j + 1];
        }
      }
      if c.name in seen {
        KeepFirstChain(cands[1..], seen, rel);
      } else {
        var rest := KeepFirst(cands[1..], seen + {c.name});
        KeepFirstChain(cands[1..], seen + {c.name}, rel);
        KeepFirstFacts(cands[1..], seen + {c.name});
        forall i, j | 0 <= i < j < |[c] + rest|
          ensures rel(([c] + rest)[i], ([c] + rest)[j])
        {
          if i == 0 {
            var x := rest[j - 1];
            assert x in cands[1..];
            var k :| 0 <= k < |cands[1..]| && cands[1..][k] == x;
            assert cands[k + 1] == x;
          } else {
            assert ([c] + rest)[i] == rest[i - 1] && ([c] + rest)[j] == rest[j - 1];
          }
        }
      }
    }
  }

  /** A list whose names are distinct and untaken passes unchanged. */
  lemma {:induction false} KeepFirstOfUnique(cands: seq<Member>, seen: set<string>)
    requires NamesUnique(cands)
    requires forall k :: 0 <= k < |cands| ==> cands[k].name !in seen
    ensures KeepFirst(cands, seen) == cands
    decreases |cands|
  {
    if cands != [] {
      var c := cands[0];
      assert forall k :: 0 <= k < |cands[1..]| ==> cands[1..][k] == cands[k + 1];
      KeepFirstOfUnique(cands[1..], seen + {c.name});
    }
  }

  // ------------------------------------------------ the extractors' loop

  /** The state of an extractor after its loop has pushed or skipped each of
      `cands`, starting from the member list `members` and the set of names
      `seen`: a candidate whose name is in the set is skipped, any other is
      pushed and its name added. */
  function Accumulate(cands: seq<Member>, members: seq<Member>, seen: set<string>): (seq<Member>, set<string>) {
    if cands == [] then (members, seen)
    else if cands[0].name in seen then Accumulate(cands[1..], members, seen)
    else Accumulate(cands[1..], members + [cands[0]], seen + {cands[0].name})
  }

  /** One round of the loop, on the candidate `c` in front of `rest`. */
  lemma AccumulateCons(c: Member, rest: seq<Member>, members: seq<Member>, seen: set<string>)
    ensures Accumulate([c] + rest, members, seen) ==
            if c.name in seen then Accumulate(rest, members, seen)
            else Accumulate(rest, members + [c], seen + {c.name})
  {
    assert ([c] + rest)[0] == c && ([c] + rest)[1..] == rest;
  }

  /** Running the loop over `a + b` is running it over `a`, then over `b`
      from the state it left. */
  lemma {:induction false} AccumulateAppend(a: seq<Member>, b: seq<Member>, members: seq<Member>, seen: set<string>)
    ensures Accumulate(a + b, members, seen) ==
            Accumulate(b, Accumulate(a, members, seen).0, Accumulate(a, members, seen).1)
    decreases |a|
  {
    if a == [] {
      assert a + b == b;
    } else {
      assert (a + b)[0] == a[0] && (a + b)[1..] == a[1..] + b;
      if a[0].name in seen {
        AccumulateAppend(a[1..], b, members, seen);
      } else {
        AccumulateAppend(a[1..], b, members + [a[0]], seen + {a[0].name});
      }
    }
  }

  /** The loop appends `KeepFirst(cands, seen)` to the members and ends up
      with every candidate name taken. */
  lemma {:induction false} AccumulateKeepFirst(cands: seq<Member>, members: seq<Member>, seen: set<string>)
    ensures Accumulate(cands, members, seen).0 == members + KeepFirst(cands, seen)
    ensures Accumulate(cands, members, seen).1 == seen + Names(cands)
    decreases |cands|
  {
    if cands == [] {
      assert members + [] == members;
    } else {
      var c := cands[0];
      assert cands == [c] + cands[1..];
      NamesConcat([c], cands[1..]);
      assert Names([c]) == {c.name};
      if c.name in seen {
        AccumulateKeepFirst(cands[1..], members, seen);
      } else {
        AccumulateKeepFirst(cands[1..], members + [c], seen + {c.name});
        assert (members + [c]) + KeepFirst(cands[1..], seen + {c.name})
            == members + ([c] + KeepFirst(cands[1..], seen + {c.name}));
      }
    }
  }

  // ------------------------------------------------ the sorter's filter

  /** The first `n` members of `ms` put through
      `filter((m, i, self) => i === self.findIndex(x => x.name === m.name))`. */
  function FirstOccurrences(ms: seq<Member>, n: nat): seq<Member>
    requires n <= |ms|
  {
    if n == 0 then []
    else FirstOccurrences(ms, n - 1) + (if FindIndex(ms, ms[n - 1].name) == n - 1 then [ms[n - 1]] else [])
  }

  /** The deduplication filter of `sortMembers`. */
  function UniqueMembers(ms: seq<Member>): seq<Member> {
    FirstOccurrences(ms, |ms|)
  }

  /** The filter keeps position `i` exactly when no earlier member has the
      same name. */
  lemma FilterKeeps(ms: seq<Member>, i: nat)
    requires i < |ms|
    ensures FindIndex(ms, ms[i].name) == i <==> forall j :: 0 <= j < i ==> ms[j].name != ms[i].name
  {
  }

  lemma NameInPrefix(ms: seq<Member>, n: nat)
    requires n < |ms|
    ensures ms[n].name in Names(ms[..n]) <==> FindIndex(ms, ms[n].name) != n
  {
    var x := ms[n].name;
    var f := FindIndex(ms, x);
    if x in Names(ms[..n]) {
      var m :| m in ms[..n] && m.name == x;
      var k :| 0 <= k < n && ms[..n][k] == m;
      assert ms[k].name == x;
    }
    if f != n {
      assert f < n;
      assert ms[..n][f] == ms[f];
      assert ms[f] in ms[..n];
    }
  }

  lemma PrefixNames(ms: seq<Member>, m: nat)
    requires m < |ms|
    ensures Names(ms[..m + 1]) == Names(ms[..m]) + {ms[m].name}
  {
    assert ms[..m + 1] == ms[..m] + [ms[m]];
    NamesConcat(ms[..m], [ms[m]]);
    assert Names([ms[m]]) == {ms[m].name};
  }

  /** The filter and the seen-set loop agree, for every prefix. */
  lemma {:induction false} FirstOccurrencesAccumulate(ms: seq<Member>, n: nat)
    requires n <= |ms|
    ensures Accumulate(ms[..n], [], {}) == (FirstOccurrences(ms, n), Names(ms[..n]))
    decreases n
  {
    if n == 0 {
      assert ms[..0] == [];
      assert Names([]) == {};
    } else {
      var m := n - 1;
      var x := ms[m];
      FirstOccurrencesAccumulate(ms, m);
      assert ms[..n] == ms[..m] + [x];
      AccumulateAppend(ms[..m], [x], [], {});
      AccumulateCons(x, [], FirstOccurrences(ms, m), Names(ms[..m]));
      assert [x] + [] == [x];
      PrefixNames(ms, m);
      NameInPrefix(ms, m);
      if x.name in Names(ms[..m]) {
        assert Names(ms[..m]) + {x.name} == Names(ms[..m]);
        assert FirstOccurrences(ms, n) == FirstOccurrences(ms, m) + [];
        assert FirstOccurrences(ms, m) + [] == FirstOccurrences(ms, m);
        assert Accumulate(ms[..n], [], {}) == Accumulate([], FirstOccurrences(ms, m), Names(ms[..m]));
      } else {
        assert FirstOccurrences(ms, n) == FirstOccurrences(ms, m) + [x];
      }
    }
  }

  /** `filter`/`findIndex` deduplication is the seen-set loop started with no
      names taken. */
  lemma UniqueMembersIsKeepFirst(ms: seq<Member>)
    ensures UniqueMembers(ms) == KeepFirst(ms, {})
  {
    FirstOccurrencesAccumulate(ms, |ms|);
    AccumulateKeepFirst(ms, [], {});
    assert ms[..|ms|] == ms;
    assert [] + KeepFirst(ms, {}) == KeepFirst(ms, {});
  }

  /** Where the members of `u` first occur in `ms`. */
  ghost function Positions(ms: seq<Member>, u: seq<Member>): seq<int> {
    seq(|u|, k requires 0 <= k < |u| => FindIndex(ms, u[k].name))
  }

  /** Strictly increasing positions in `[0, n)`. */
  ghost predicate IncreasingBelow(p: seq<int>, n: int) {
    && (forall k :: 0 <= k < |p| ==> 0 <= p[k] < n)
    && (forall i, j :: 0 <= i < j < |p| ==> p[i] < p[j])
  }

  /** The filter keeps members in input order: the first occurrences of the
      first `n` members come from increasing positions below `n`. */
  lemma {:induction false} FirstOccurrencesOrder(ms: seq<Member>, n: nat)
    requires n <= |ms|
    ensures IncreasingBelow(Positions(ms, FirstOccurrences(ms, n)), n)
    decreases n
  {
    if n > 0 {
      var m := n - 1;
      var prev := FirstOccurrences(ms, m);
      FirstOccurrencesOrder(ms, m);
      var p := Positions(ms, prev);
      if FindIndex(ms, ms[m].name) == m {
        assert FirstOccurrences(ms, n) == prev + [ms[m]];
        assert Positions(ms, prev + [ms[m]]) == p + [m];
      } else {
        assert FirstOccurrences(ms, n) == prev + [];
        assert prev + [] == prev;
      }
    }
  }

  /** The filter keeps input order: a kept member that comes before another
      first occurs earlier in the input. */
  lemma UniqueMembersOrder(ms: seq<Member>)
    ensures forall i, j :: 0 <= i < j < |UniqueMembers(ms)| ==>
              FindIndex(ms, UniqueMembers(ms)[i].name) < FindIndex(ms, UniqueMembers(ms)[j].name)
  {
    FirstOccurrencesOrder(ms, |ms|);
    var u := UniqueMembers(ms);
    var p := Positions(ms, u);
    forall i, j | 0 <= i < j < |u| ensures FindIndex(ms, u[i].name) < FindIndex(ms, u[j].name) {
      assert p[i] == FindIndex(ms, u[i].name) && p[j] == FindIndex(ms, u[j].name);
    }
  }

  /** What the sorter's filter promises: distinct names, every input name
      still present, each kept member the first with its name, input order
      kept (see also `UniqueMembersOrder`), and a second pass changing
      nothing. */
  lemma UniqueMembersFacts(ms: seq<Member>, rel: (Member, Member) -> bool)
    ensures NamesUnique(UniqueMembers(ms))
    ensures Names(UniqueMembers(ms)) == Names(ms)
    ensures forall k :: 0 <= k < |UniqueMembers(ms)| ==>
              FindIndex(ms, UniqueMembers(ms)[k].name) >= 0 &&
              ms[FindIndex(ms, UniqueMembers(ms)[k].name)] == UniqueMembers(ms)[k]
    ensures Chain(ms, rel) ==> Chain(UniqueMembers(ms), rel)
    ensures UniqueMembers(UniqueMembers(ms)) == UniqueMembers(ms)
  {
    UniqueMembersIsKeepFirst(ms);
    KeepFirstFacts(ms, {});
    KeepFirstNames(ms, {});
    KeepFirstIsFirst(ms, {});
    if Chain(ms, rel) {
      KeepFirstChain(ms, {}, rel);
    }
    var u := UniqueMembers(ms);
    UniqueMembersIsKeepFirst(u);
    KeepFirstOfUnique(u, {});
  }
}
