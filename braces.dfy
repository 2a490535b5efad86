/** Brace counting: the scan that finds the `}` closing a class body, and the
    loop that extends an under-captured method body until its braces balance. */
module Braces {
  import opened Strings

  /** The running brace count of the class scan after it has read
      `text[start..i]`, starting at 1 just after the class's `{`. */
  function Depth(text: string, start: nat, i: nat): int
    requires start <= i <= |text|
  {
    1 + Count(text[start..i], '{') - Count(text[start..i], '}')
  }

  /** Reading one more character moves the count by that character alone. */
  lemma DepthStep(text: string, start: nat, i: nat)
    requires start <= i < |text|
    ensures Depth(text, start, i + 1) ==
            Depth(text, start, i) + (if text[i] == '{' then 1 else 0) - (if text[i] == '}' then 1 else 0)
  {
    assert text[start..i + 1][..i - start] == text[start..i];
  }

  /** The first index at or after `i` at which the count drops to 0 once that
      character is read. */
  function MatchingBrace(text: string, start: nat, i: nat): (r: Option<nat>)
    requires start <= i <= |text|
    ensures r.Some? ==> i <= r.value < |text| && Depth(text, start, r.value + 1) == 0
    ensures r.Some? ==> forall k :: i < k <= r.value ==> Depth(text, start, k) != 0
    ensures r.None? ==> forall k :: i < k <= |text| ==> Depth(text, start, k) != 0
    decreases |text| - i
  {
    if i == |text| then None
    else if Depth(text, start, i + 1) == 0 then Some(i)
    else MatchingBrace(text, start, i + 1)
  }

  /** Since the count moves by one at a time, it stays at 1 or more until it
      first reaches 0, and the character that brings it there is a `}`. */
  lemma {:induction false} MatchingBraceFacts(text: string, start: nat, i: nat)
    requires start <= i <= |text| && Depth(text, start, i) >= 1
    ensures MatchingBrace(text, start, i).Some? ==>
              var e := MatchingBrace(text, start, i).value;
              text[e] == '}' && forall k :: i <= k <= e ==> Depth(text, start, k) >= 1
    ensures MatchingBrace(text, start, i).None? ==>
              forall k :: i <= k <= |text| ==> Depth(text, start, k) >= 1
    decreases |text| - i
  {
    if i < |text| {
      DepthStep(text, start, i);
      if Depth(text, start, i + 1) != 0 {
        MatchingBraceFacts(text, start, i + 1);
      }
    }
  }

  /** `classEnd` of the scan that starts just after the class's `{`: the index
      of the matching `}`, or `classStart` itself when the braces never
      balance. */
  function ClassEnd(text: string, classStart: nat): nat
    requires classStart <= |text|
  {
    MatchingBrace(text, classStart, classStart).GetOr(classStart)
  }

  /** What the class scan finds: the matching `}`, with the count at 1 or more
      everywhere before it, or, when there is none, `classStart` and an empty
      body. */
  lemma ClassEndFacts(text: string, classStart: nat)
    requires classStart <= |text|
    ensures classStart <= ClassEnd(text, classStart) <= |text|
    ensures MatchingBrace(text, classStart, classStart).Some? ==>
              var e := ClassEnd(text, classStart);
              e < |text| && text[e] == '}' && Depth(text, classStart, e + 1) == 0 &&
              forall k :: classStart <= k <= e ==> Depth(text, classStart, k) >= 1
    ensures MatchingBrace(text, classStart, classStart).None? ==>
              ClassEnd(text, classStart) == classStart &&
              text[classStart..ClassEnd(text, classStart)] == ""
  {
    assert text[classStart..classStart] == "";
    MatchingBraceFacts(text, classStart, classStart);
  }

  /** The `for` loop over the text after the class's `{` with its running
      `braceCount`. */
  method FindClassEnd(text: string, classStart: nat) returns (classEnd: nat)
    requires classStart <= |text|
    ensures classEnd == ClassEnd(text, classStart)
    ensures classStart <= classEnd <= |text|
  {
    var braceCount := 1;
    classEnd := classStart;
    var i := classStart;
    assert text[classStart..classStart] == "";
    while i < |text|
      invariant classStart <= i <= |text|
      invariant braceCount == Depth(text, classStart, i)
      invariant MatchingBrace(text, classStart, i) == MatchingBrace(text, classStart, classStart)
      invariant classEnd == classStart
      decreases |text| - i
    {
      DepthStep(text, classStart, i);
      if text[i] == '{' {
        braceCount := braceCount + 1;
      }
      if text[i] == '}' {
        braceCount := braceCount - 1;
      }
      if braceCount == 0 {
        classEnd := i;
        return;
      }
      i := i + 1;
    }
  }

  // ------------------------------------------------ method body extension

  /** Whether `text[start..end]` has more `{` than `}`. */
  predicate Unbalanced(text: string, start: nat, end: nat)
    requires start <= end <= |text|
  {
    Count(text[start..end], '{') > Count(text[start..end], '}')
  }

  /** End of `methodText` once the extension loop is done with a method that
      starts at `start` and whose match ends at `end`: while the text has more
      `{` than `}`, it grows to the next `}` after its current end. */
  function ExtendedEnd(text: string, start: nat, end: nat): (r: nat)
    requires start <= end <= |text|
    ensures end <= r <= |text|
    ensures !Unbalanced(text, start, r) || IndexOfFrom(text, '}', r) == -1
    ensures r > end ==> text[r - 1] == '}'
    decreases |text| - end
  {
    if !Unbalanced(text, start, end) then end
    else
      var next := IndexOfFrom(text, '}', end);
      if next == -1 then end else ExtendedEnd(text, start, next + 1)
  }

  /** One round of `ExtendedEnd`. */
  lemma ExtendedEndStep(text: string, start: nat, end: nat)
    requires start <= end <= |text|
    ensures !Unbalanced(text, start, end) ==> ExtendedEnd(text, start, end) == end
    ensures Unbalanced(text, start, end) && IndexOfFrom(text, '}', end) == -1 ==>
              ExtendedEnd(text, start, end) == end
    ensures Unbalanced(text, start, end) && IndexOfFrom(text, '}', end) != -1 ==>
              ExtendedEnd(text, start, end) == ExtendedEnd(text, start, IndexOfFrom(text, '}', end) + 1)
  {
  }

  /** The `while (openBraces > closeBraces)` loop of the C# extractor, on the
      method match `text[start..end]`. Each round strictly lengthens
      `methodText`, which stays the part of `text` from `start`. */
  method ExtendMethodText(text: string, start: nat, end: nat) returns (methodText: string)
    requires start <= end <= |text|
    ensures methodText == text[start..ExtendedEnd(text, start, end)]
  {
    methodText := text[start..end];
    var openBraces := Count(methodText, '{');
    var closeBraces := Count(methodText, '}');
    ghost var e := end;
    while openBraces > closeBraces
      invariant end <= e <= |text| && methodText == text[start..e]
      invariant ExtendedEnd(text, start, e) == ExtendedEnd(text, start, end)
      invariant openBraces == Count(methodText, '{') && closeBraces == Count(methodText, '}')
      decreases |text| - e
    {
      assert Unbalanced(text, start, e);
      ExtendedEndStep(text, start, e);
      assert start + |methodText| == e;
      var nextCloseBrace := IndexOfFrom(text, '}', start + |methodText|);
      if nextCloseBrace == -1 {
        break;
      }
      assert ExtendedEnd(text, start, nextCloseBrace + 1) == ExtendedEnd(text, start, end);
      methodText := text[start..nextCloseBrace + 1];
      e := nextCloseBrace + 1;
      openBraces := Count(methodText, '{');
      closeBraces := Count(methodText, '}');
    }
    ExtendedEndStep(text, start, e);
  }
}
