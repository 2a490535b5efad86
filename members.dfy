/** The member record every extractor produces (`IMember` of src/types.ts).
    The editor `Range` is replaced by a pair of character offsets into the
    document. */
module Members {

  datatype Kind = Field | Property | Method

  /** Start and end offsets of a member's source text. */
  datatype Span = Span(start: int, end: int)

  datatype Member = Member(
    name: string,
    visibility: string,
    text: string,
    span: Span,
    kind: Kind)

  /** The names occurring in a member list. */
  ghost function Names(ms: seq<Member>): set<string> {
    set m | m in ms :: m.name
  }

  /** No two members of the list share a name. */
  ghost predicate NamesUnique(ms: seq<Member>) {
    forall i, j :: 0 <= i < j < |ms| ==> ms[i].name != ms[j].name
  }

  /** Every pair of members, taken in list order, is related by `r`. */
  ghost predicate Chain(ms: seq<Member>, r: (Member, Member) -> bool) {
    forall i, j :: 0 <= i < j < |ms| ==> r(ms[i], ms[j])
  }

  /** Position of a kind in the output: fields, then properties, then
      methods. */
  function Rank(k: Kind): nat {
    match k
    case Field => 0
    case Property => 1
    case Method => 2
  }

  /** The order in which the extractors report members: by kind, and within
      a kind by position in the document. */
  predicate PassOrder(a: Member, b: Member) {
    Rank(a.kind) < Rank(b.kind) || (a.kind == b.kind && a.span.start < b.span.start)
  }

  /** Two chains joined make a chain when every member of the first is
      related to every member of the second. */
  lemma ChainConcat(a: seq<Member>, b: seq<Member>, r: (Member, Member) -> bool)
    requires Chain(a, r) && Chain(b, r)
    requires forall x, y :: x in a && y in b ==> r(x, y)
    ensures Chain(a + b, r)
  {
    forall i, j | 0 <= i < j < |a + b|
      ensures r((a + b)[i], (a + b)[j])
    {
      if j < |a| {
        assert (a + b)[i] == a[i] && (a + b)[j] == a[j];
      } else if i < |a| {
        assert (a + b)[i] == a[i] && (a + b)[j] == b[j - |a|];
        assert a[i] in a && b[j - |a|] in b;
      } else {
        assert (a + b)[i] == b[i - |a|] && (a + b)[j] == b[j - |a|];
      }
    }
  }
}
