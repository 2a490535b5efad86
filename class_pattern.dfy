/** The class signature `\s*public\s+(?:partial\s+)?class\s+(\w+)(?:\s*:\s*\w+)?\s*\{`
    that locates the class body, and its prefix without the base type and
    brace that `getClassName` uses, as recognizers built from the pieces of
    `Patterns`. A non-global `text.match` is the leftmost match. */
module ClassPattern {
  import opened Strings
  import opened Patterns

  /** `\s*public\s+(?:partial\s+)?class\s+(\w+)` at `q`: end offset of the
      name and the name. */
  function ClassHeadAt(s: string, q: nat): (r: Option<Tail>)
    requires q <= |s|
    ensures TailAfter(s, q, r)
  {
    var p := RunEnd(s, q, IsSpace);
    match LeadAt(s, p, ["public"])
    case None => None
    case Some(lead) =>
      var viaPartial :=
        match ModifierAt(s, lead.next, "partial")
        case None => None
        case Some(b) => ClassKeywordName(s, b);
      if viaPartial.Some? then viaPartial else ClassKeywordName(s, lead.next)
  }

  /** `class\s+(\w+)` at `i`. */
  function ClassKeywordName(s: string, i: nat): (r: Option<Tail>)
    requires i <= |s|
    ensures TailAfter(s, i, r)
  {
    match ModifierAt(s, i, "class")
    case None => None
    case Some(d) =>
      var e := WordEnd(s, d);
      if e == d then None else Some(Tail(e, s[d..e]))
  }

  /** The class body starting at `e` opens just after a `{`. */
  predicate OpensBody(s: string, e: nat) {
    0 < e <= |s| && s[e - 1] == '{'
  }

  /** `(?:\s*:\s*\w+)?\s*\{` after the class name at `e`: with a base type
      first, then without. */
  function BaseThenBrace(s: string, e: nat): (r: Option<nat>)
    requires e <= |s|
    ensures r.Some? ==> e < r.value <= |s| && OpensBody(s, r.value)
  {
    var f := RunEnd(s, e, IsSpace);
    var withBase :=
      if CharAt(s, f, ':') then
        var g := RunEnd(s, f + 1, IsSpace);
        var h := RunEnd(s, g, IsWord);
        var k := RunEnd(s, h, IsSpace);
        if h > g && CharAt(s, k, '{') then Some(k + 1) else None
      else None;
    if withBase.Some? then withBase
    else if CharAt(s, f, '{') then Some(f + 1)
    else None
  }

  /** `\s*public\s+(?:partial\s+)?class\s+\w+(?:\s*:\s*\w+)?\s*\{` at `q`:
      end offset of the match, just after the class's opening brace. */
  function ClassSignatureAt(s: string, q: nat): (r: Option<nat>)
    requires q <= |s|
    ensures r.Some? ==> q < r.value <= |s| && OpensBody(s, r.value)
  {
    match ClassHeadAt(s, q)
    case None => None
    case Some(head) => BaseThenBrace(s, head.end)
  }

  /** The class signature matches at no offset in `[lo, hi)`. */
  predicate NoSignatureBetween(s: string, lo: int, hi: int)
    requires 0 <= lo && hi <= |s| + 1
    decreases hi - lo
  {
    lo >= hi || (ClassSignatureAt(s, lo).None? && NoSignatureBetween(s, lo + 1, hi))
  }

  /** The result of a non-global `text.match`: `classMatch.index` and the
      end of `classMatch[0]`. */
  datatype ClassMatch = ClassMatch(index: nat, end: nat)

  /** `text.match(classSignature)` searching from `from`: the leftmost match.
      Its end is `classStart`, the offset just after the class's `{`. */
  function ClassSignature(s: string, from: nat): (r: Option<ClassMatch>)
    requires from <= |s|
    ensures r.Some? ==> from <= r.value.index < r.value.end <= |s| && OpensBody(s, r.value.end)
    decreases |s| - from
  {
    var here := ClassSignatureAt(s, from);
    if here.Some? then Some(ClassMatch(from, here.value))
    else if from == |s| then None
    else ClassSignature(s, from + 1)
  }

  /** `ClassSignature` finds the leftmost match: the signature matches where
      it reports, ending where it says, and at no earlier offset; when it
      reports none, the signature matches nowhere. */
  lemma {:induction false} ClassSignatureLeftmost(s: string, from: nat)
    requires from <= |s|
    ensures var r := ClassSignature(s, from);
            && (r.Some? ==> ClassSignatureAt(s, r.value.index) == Some(r.value.end))
            && (r.Some? ==> NoSignatureBetween(s, from, r.value.index))
            && (r.None? ==> NoSignatureBetween(s, from, |s| + 1))
    decreases |s| - from
  {
    if ClassSignatureAt(s, from).None? && from < |s| {
      ClassSignatureLeftmost(s, from + 1);
    }
  }

  /** `text.match(/\s*public\s+(?:partial\s+)?class\s+(\w+)/)`: capture
      group 1 of the leftmost match. */
  function FirstClassName(s: string, from: nat): (r: Option<string>)
    requires from <= |s|
    ensures r.Some? ==> IsIdentifier(r.value)
    decreases |s| - from
  {
    match ClassHeadAt(s, from)
    case Some(head) => Some(head.name)
    case None => if from == |s| then None else FirstClassName(s, from + 1)
  }
}
