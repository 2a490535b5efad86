/** Character classes and string operations of the JavaScript runtime that the
    extension relies on: the regex classes `\s`, `\w`, the type-token class
    `[\w<>[\]]`, and `trim`, `split`, `join`, `indexOf` and brace counting. */
module Strings {

  /** JavaScript `\s` (WhiteSpace and LineTerminator); `String.prototype.trim`
      strips exactly this set. */
  predicate IsSpace(c: char) {
    c == '\t' || c == '\n' || c == '\U{000B}' || c == '\U{000C}' || c == '\r' || c == ' ' ||
    c == '\U{00A0}' || c == '\U{1680}' || ('\U{2000}' <= c <= '\U{200A}') ||
    c == '\U{2028}' || c == '\U{2029}' || c == '\U{202F}' || c == '\U{205F}' ||
    c == '\U{3000}' || c == '\U{FEFF}'
  }

  /** JavaScript `\w`. */
  predicate IsWord(c: char) {
    ('a' <= c <= 'z') || ('A' <= c <= 'Z') || ('0' <= c <= '9') || c == '_'
  }

  /** The class `[\w<>[\]]` used for type tokens. */
  predicate IsTypeChar(c: char) {
    IsWord(c) || c == '<' || c == '>' || c == '[' || c == ']'
  }

  /** JavaScript `.` without the s flag: anything but a line terminator. */
  predicate IsDotChar(c: char) {
    c != '\n' && c != '\r' && c != '\U{2028}' && c != '\U{2029}'
  }

  /** Whitespace inside one line of text (the `^\s*` of a line). */
  predicate IsLineSpace(c: char) {
    IsSpace(c) && c != '\n'
  }

  predicate AllWord(s: string) {
    forall k :: 0 <= k < |s| ==> IsWord(s[k])
  }

  /** End of the longest run of characters of class `cls` starting at `i`
      (a greedy `cls*`). */
  function RunEnd(s: string, i: nat, cls: char -> bool): (j: nat)
    requires i <= |s|
    ensures i <= j <= |s|
    decreases |s| - i
  {
    if i == |s| || !cls(s[i]) then i else RunEnd(s, i + 1, cls)
  }

  /** The run found by `RunEnd` is maximal. */
  lemma {:induction false} RunEndFacts(s: string, i: nat, cls: char -> bool)
    requires i <= |s|
    ensures forall k :: i <= k < RunEnd(s, i, cls) ==> cls(s[k])
    ensures RunEnd(s, i, cls) == |s| || !cls(s[RunEnd(s, i, cls)])
    decreases |s| - i
  {
    if i < |s| && cls(s[i]) {
      RunEndFacts(s, i + 1, cls);
    }
  }

  /** `w` occurs in `s` at offset `i`. */
  predicate StartsAt(s: string, i: nat, w: string) {
    i + |w| <= |s| && s[i..i + |w|] == w
  }

  /** The character `c` occurs at `i`: `StartsAt` for a one-character word. */
  predicate CharAt(s: string, i: nat, c: char) {
    i < |s| && s[i] == c
  }

  /** The first of `words` that occurs at `i` (an ordered regex alternation). */
  function KeywordAt(s: string, i: nat, words: seq<string>): (r: Option<string>)
    ensures r.Some? ==> r.value in words && StartsAt(s, i, r.value)
    ensures r.None? ==> forall w :: w in words ==> !StartsAt(s, i, w)
  {
    if words == [] then None
    else if StartsAt(s, i, words[0]) then Some(words[0])
    else KeywordAt(s, i, words[1..])
  }

  datatype Option<T> = None | Some(value: T) {
    function GetOr(default: T): T {
      match this
      case Some(v) => v
      case None => default
    }
  }

  /** Number of occurrences of `c` in `s` (the length of `s.match(/c/g) || []`). */
  function Count(s: string, c: char): nat {
    if s == [] then 0 else Count(s[..|s| - 1], c) + (if s[|s| - 1] == c then 1 else 0)
  }

  /** `s.indexOf(c, from)`: the first index at or after `from` holding `c`, or -1. */
  function IndexOfFrom(s: string, c: char, from: nat): (r: int)
    ensures r == -1 || (from <= r < |s| && s[r] == c)
    decreases |s| - from
  {
    if from >= |s| then -1
    else if s[from] == c then from
    else IndexOfFrom(s, c, from + 1)
  }

  /** `IndexOfFrom` finds the first `c`: none is skipped. */
  lemma {:induction false} IndexOfFromFacts(s: string, c: char, from: nat)
    ensures IndexOfFrom(s, c, from) == -1 ==> forall k :: from <= k < |s| ==> s[k] != c
    ensures IndexOfFrom(s, c, from) != -1 ==> forall k :: from <= k < IndexOfFrom(s, c, from) ==> s[k] != c
    decreases |s| - from
  {
    if from < |s| && s[from] != c {
      IndexOfFromFacts(s, c, from + 1);
    }
  }

  /** `Array.prototype.indexOf` on a sequence: first position of `x`, or -1. */
  function IndexOf<T(==)>(xs: seq<T>, x: T): (r: int)
    ensures -1 <= r < |xs|
    ensures r >= 0 ==> xs[r] == x && forall k :: 0 <= k < r ==> xs[k] != x
    ensures r == -1 <==> x !in xs
  {
    if xs == [] then -1
    else if xs[0] == x then 0
    else var r := IndexOf(xs[1..], x); if r == -1 then -1 else r + 1
  }

  // ---------------------------------------------------------------- trim

  /** Start of the longest run of characters of class `cls` that ends at `j`
      (greedy, scanning backwards). */
  function RunStart(s: string, j: nat, cls: char -> bool): (i: nat)
    requires j <= |s|
    ensures i <= j
  {
    if j == 0 || !cls(s[j - 1]) then j else RunStart(s, j - 1, cls)
  }

  /** The run found by `RunStart` is maximal. */
  lemma {:induction false} RunStartFacts(s: string, j: nat, cls: char -> bool)
    requires j <= |s|
    ensures forall k :: RunStart(s, j, cls) <= k < j ==> cls(s[k])
    ensures RunStart(s, j, cls) == 0 || !cls(s[RunStart(s, j, cls) - 1])
  {
    if j > 0 && cls(s[j - 1]) {
      RunStartFacts(s, j - 1, cls);
    }
  }

  /** A string with no leading and no trailing whitespace. */
  predicate IsTrimmed(s: string) {
    s == [] || (!IsSpace(s[0]) && !IsSpace(s[|s| - 1]))
  }

  /** `r` is `s` with whitespace removed from its ends only: it is the part
      of `s` at offset `i`, and everything before and after it is whitespace. */
  ghost predicate StripsSpace(s: string, i: int, r: string) {
    && 0 <= i <= |s| - |r|
    && r == s[i..i + |r|]
    && (forall k :: 0 <= k < i ==> IsSpace(s[k]))
    && (forall k :: i + |r| <= k < |s| ==> IsSpace(s[k]))
  }

  /** `s` without its leading whitespace. */
  function TrimStart(s: string): string {
    if s != [] && IsSpace(s[0]) then TrimStart(s[1..]) else s
  }

  /** `s` without its trailing whitespace. */
  function TrimEnd(s: string): string {
    if s != [] && IsSpace(s[|s| - 1]) then TrimEnd(s[..|s| - 1]) else s
  }

  /** `String.prototype.trim`; `TrimIsTrimmed` and `TrimStrips` state what it does. */
  function Trim(s: string): string {
    TrimEnd(TrimStart(s))
  }

  lemma {:induction false} TrimStartFacts(s: string)
    ensures StripsSpace(s, |s| - |TrimStart(s)|, TrimStart(s))
    ensures TrimStart(s) == [] || !IsSpace(TrimStart(s)[0])
    decreases |s|
  {
    if s != [] && IsSpace(s[0]) {
      TrimStartFacts(s[1..]);
    }
  }

  lemma {:induction false} TrimEndFacts(s: string)
    ensures StripsSpace(s, 0, TrimEnd(s))
    ensures TrimEnd(s) == [] || !IsSpace(TrimEnd(s)[|TrimEnd(s)| - 1])
    ensures TrimEnd(s) != [] ==> TrimEnd(s)[0] == s[0]
    decreases |s|
  {
    if s != [] && IsSpace(s[|s| - 1]) {
      TrimEndFacts(s[..|s| - 1]);
    }
  }

  /** Trimming leaves no whitespace at either end. */
  lemma TrimIsTrimmed(s: string)
    ensures IsTrimmed(Trim(s))
  {
    TrimStartFacts(s);
    TrimEndFacts(TrimStart(s));
  }

  /** Trimming removes whitespace only, from the two ends. */
  lemma TrimStrips(s: string)
    ensures StripsSpace(s, |s| - |TrimStart(s)|, Trim(s))
  {
    var t := TrimStart(s);
    TrimStartFacts(s);
    TrimEndFacts(t);
    var i := |s| - |t|;
    assert t == s[i..];
    assert Trim(s) == t[..|Trim(s)|];
  }

  lemma TrimOfTrimmed(s: string)
    requires IsTrimmed(s)
    ensures Trim(s) == s
  {
  }

  /** Trimming removes whitespace only, so a string whose first character is
      not whitespace trims to a non-empty string that starts with it. */
  lemma TrimNonEmpty(s: string)
    requires s != [] && !IsSpace(s[0])
    ensures Trim(s) != [] && Trim(s)[0] == s[0]
  {
    TrimEndFacts(s);
  }

  lemma {:induction false} TrimStartAfterSpace(p: string, t: string)
    requires forall k :: 0 <= k < |p| ==> IsSpace(p[k])
    requires t == [] || !IsSpace(t[0])
    ensures TrimStart(p + t) == t
    decreases |p|
  {
    if p == [] {
      assert p + t == t;
    } else {
      assert (p + t)[1..] == p[1..] + t;
      TrimStartAfterSpace(p[1..], t);
    }
  }

  /** Trimming a trimmed string behind whitespace gives it back. */
  lemma TrimAfterSpace(p: string, t: string)
    requires forall k :: 0 <= k < |p| ==> IsSpace(p[k])
    requires IsTrimmed(t)
    ensures Trim(p + t) == t
  {
    TrimStartAfterSpace(p, t);
  }

  /** The match of `^\s*` on `s`: its leading whitespace. */
  function LeadingSpace(s: string): string {
    s[..RunEnd(s, 0, IsSpace)]
  }

  /** The leading whitespace is a prefix of `s` made of whitespace only, and
      whatever follows it is not whitespace. */
  lemma LeadingSpaceFacts(s: string)
    ensures |LeadingSpace(s)| <= |s| && LeadingSpace(s) == s[..|LeadingSpace(s)|]
    ensures forall k :: 0 <= k < |LeadingSpace(s)| ==> IsSpace(LeadingSpace(s)[k])
    ensures |LeadingSpace(s)| == |s| || !IsSpace(s[|LeadingSpace(s)|])
  {
    RunEndFacts(s, 0, IsSpace);
  }

  /** Trimming keeps a part of the string, so it adds no character. */
  lemma TrimKeeps(s: string, c: char)
    requires c !in s
    ensures c !in Trim(s)
  {
    TrimStrips(s);
    var i := |s| - |TrimStart(s)|;
    assert forall k :: 0 <= k < |Trim(s)| ==> Trim(s)[k] == s[i + k];
  }

  /** `xs.map(line => line.trim())`. */
  function TrimAll(xs: seq<string>): (r: seq<string>)
    ensures |r| == |xs|
    ensures forall k :: 0 <= k < |xs| ==> r[k] == Trim(xs[k])
  {
    if xs == [] then [] else [Trim(xs[0])] + TrimAll(xs[1..])
  }

  // ------------------------------------------------------- split and join

  /** `s.split(c)` for a one-character separator: always at least one piece,
      and no piece contains the separator. */
  function Split(s: string, c: char): (r: seq<string>)
    ensures |r| >= 1
    ensures forall k :: 0 <= k < |r| ==> c !in r[k]
    decreases |s|
  {
    var i := IndexOfFrom(s, c, 0);
    IndexOfFromFacts(s, c, 0);
    if i == -1 then [s] else [s[..i]] + Split(s[i + 1..], c)
  }

  /** `xs.join(sep)`. */
  function Join(xs: seq<string>, sep: string): string {
    if xs == [] then ""
    else if |xs| == 1 then xs[0]
    else xs[0] + sep + Join(xs[1..], sep)
  }

  /** Splitting a string and joining the pieces with the separator gives the
      string back. */
  lemma {:induction false} JoinSplit(s: string, c: char)
    ensures Join(Split(s, c), [c]) == s
    decreases |s|
  {
    var i := IndexOfFrom(s, c, 0);
    if i != -1 {
      var rest := Split(s[i + 1..], c);
      JoinSplit(s[i + 1..], c);
      assert Split(s, c) == [s[..i]] + rest;
      assert (Split(s, c))[1..] == rest;
      assert s == s[..i] + [c] + s[i + 1..];
    }
  }

  /** Joining pieces that do not contain the separator and splitting again
      gives the pieces back. */
  lemma {:induction false} SplitJoin(xs: seq<string>, c: char)
    requires |xs| >= 1
    requires forall k :: 0 <= k < |xs| ==> c !in xs[k]
    ensures Split(Join(xs, [c]), c) == xs
    decreases |xs|
  {
    if |xs| == 1 {
      assert IndexOfFrom(xs[0], c, 0) == -1;
    } else {
      var s := Join(xs, [c]);
      var tail := Join(xs[1..], [c]);
      assert s == xs[0] + [c] + tail;
      assert s[|xs[0]|] == c;
      assert forall k :: 0 <= k < |xs[0]| ==> s[k] == xs[0][k];
      var i := IndexOfFrom(s, c, 0);
      IndexOfFromFacts(s, c, 0);
      assert i == |xs[0]|;
      assert s[..i] == xs[0];
      assert s[i + 1..] == tail;
      SplitJoin(xs[1..], c);
    }
  }

  /** The first piece of a split is the text before the first separator, so
      it starts with the string's first character when that is not the
      separator. */
  lemma SplitFirst(s: string, c: char)
    requires s != [] && s[0] != c
    ensures Split(s, c)[0] != [] && Split(s, c)[0][0] == s[0]
  {
    var i := IndexOfFrom(s, c, 0);
    if i != -1 {
      assert i > 0;
    }
  }

  /** `xs.filter(Boolean)` on strings: drops the empty ones. */
  function Compact(xs: seq<string>): (r: seq<string>)
    ensures |r| <= |xs|
    ensures forall k :: 0 <= k < |r| ==> r[k] != ""
    ensures (forall k :: 0 <= k < |xs| ==> xs[k] != "") ==> r == xs
  {
    if xs == [] then []
    else if xs[0] == "" then Compact(xs[1..])
    else [xs[0]] + Compact(xs[1..])
  }

  lemma {:induction false} CompactAppend(a: seq<string>, b: seq<string>)
    ensures Compact(a + b) == Compact(a) + Compact(b)
    decreases |a|
  {
    if a == [] {
      assert a + b == b;
    } else {
      assert (a + b)[1..] == a[1..] + b;
      CompactAppend(a[1..], b);
    }
  }

  /** Dropping the empty strings keeps a character that no string has out. */
  lemma {:induction false} CompactKeeps(xs: seq<string>, c: char)
    requires forall k :: 0 <= k < |xs| ==> c !in xs[k]
    ensures forall k :: 0 <= k < |Compact(xs)| ==> c !in Compact(xs)[k]
    decreases |xs|
  {
    if xs != [] {
      CompactKeeps(xs[1..], c);
    }
  }

  /** A slice of a slice is a slice of the whole. */
  lemma SliceOfSlice<T>(s: seq<T>, a: nat, b: nat, i: nat, j: nat)
    requires a <= b <= |s| && i <= j <= b - a
    ensures s[a..b][i..j] == s[a + i..a + j]
  {
    var x, y := s[a..b][i..j], s[a + i..a + j];
    assert |x| == j - i == |y|;
    forall k | 0 <= k < |x|
      ensures x[k] == y[k]
    {
      assert x[k] == s[a..b][i + k] == s[a + i + k];
    }
  }
}
