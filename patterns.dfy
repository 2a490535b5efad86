/** The regular expressions of the extractors, written out as recognizers.

    Each `...At(s, q)` function answers whether its pattern matches at offset
    `q` of `s` (an anchored attempt of the JavaScript regex engine) and returns
    the end of the match with the captured name and visibility. The patterns
    are deterministic up to the greedy optional groups and `+` loops, whose
    backtracking is written as ordered fallbacks: the alternative the engine
    tries first is tried first here.

    `FindNext` is one call of `RegExp.prototype.exec` with the `g` flag (the
    leftmost match at or after `lastIndex`), and `Hits` is the sequence of
    matches a `while ((match = re.exec(s)) !== null)` loop sees. */
module Patterns {
  import opened Strings

  const CSharpVisibilities: seq<string> := ["public", "private", "protected", "internal"]
  const TypeScriptVisibilities: seq<string> := ["public", "private", "protected"]

  /** The member patterns: the C# extractor's three (src/csharpParser.ts),
      the method pattern of the unused C# copy in src/parser.ts, whose body
      allows one level of nested braces, and the two TypeScript patterns. */
  datatype Pattern =
    | CSharpField | CSharpProperty | CSharpMethod | CSharpNestedMethod
    | TypeScriptProperty | TypeScriptMethod
  {
    predicate IsCSharp() {
      !TypeScriptProperty? && !TypeScriptMethod?
    }
  }

  /** What one anchored match yields: its end offset, capture group 2 (the
      name) and capture group 1 (the visibility keyword, if it took part). */
  datatype Capture = Capture(end: nat, name: string, visibility: Option<string>)

  /** One `exec` result: `match.index`, `match[0]`, `match[2]`, `match[1]`. */
  datatype Hit = Hit(index: nat, text: string, name: string, visibility: Option<string>)

  /** An identifier captured by `(\w+)`. */
  predicate IsIdentifier(name: string) {
    |name| > 0 && AllWord(name)
  }

  /** What every match of `p` at `q` satisfies: it is non-empty and inside `s`,
      its name is an identifier, and for the C# patterns the visibility group
      always takes part and is the keyword the match starts with; a
      TypeScript match starts with a word character (of its keyword or its
      name). */
  ghost predicate WellFormed(p: Pattern, s: string, q: nat, c: Capture) {
    && q < c.end <= |s|
    && IsIdentifier(c.name)
    && (p.IsCSharp() ==>
          c.visibility.Some? && c.visibility.value in CSharpVisibilities &&
          StartsAt(s, q, c.visibility.value) && q + |c.visibility.value| < c.end)
    && (!p.IsCSharp() ==>
          (c.visibility.Some? ==> c.visibility.value in TypeScriptVisibilities) && IsWord(s[q]))
  }

  // ------------------------------------------------------------ pieces

  /** Offset after `(keyword)\s+` at `q`, with the keyword. */
  datatype Lead = Lead(keyword: string, next: nat)

  function LeadAt(s: string, q: nat, words: seq<string>): (r: Option<Lead>)
    requires q <= |s|
    ensures r.Some? ==> r.value.keyword in words && StartsAt(s, q, r.value.keyword) &&
                        q + |r.value.keyword| < r.value.next <= |s|
  {
    match KeywordAt(s, q, words)
    case None => None
    case Some(w) =>
      var b := RunEnd(s, q + |w|, IsSpace);
      if b == q + |w| then None else Some(Lead(w, b))
  }

  /** Offset after an optional modifier group `(?:word\s+)` at `i`. */
  function ModifierAt(s: string, i: nat, word: string): (r: Option<nat>)
    requires i <= |s|
    ensures r.Some? ==> i < r.value <= |s|
  {
    if StartsAt(s, i, word) && RunEnd(s, i + |word|, IsSpace) > i + |word| then
      Some(RunEnd(s, i + |word|, IsSpace))
    else None
  }

  /** End of the longest run of word characters at `c` (a greedy `\w*`). */
  function WordEnd(s: string, c: nat): (n: nat)
    requires c <= |s|
    ensures c <= n <= |s| && AllWord(s[c..n])
  {
    RunEndFacts(s, c, IsWord);
    RunEnd(s, c, IsWord)
  }

  /** End of a match of a pattern's tail, with the captured name. */
  datatype Tail = Tail(end: nat, name: string)

  predicate TailAfter(s: string, c: nat, r: Option<Tail>) {
    r.Some? ==> c < r.value.end <= |s| && IsIdentifier(r.value.name)
  }

  function WithLead(lead: Lead, t: Option<Tail>): Option<Capture> {
    match t
    case None => None
    case Some(t) => Some(Capture(t.end, t.name, Some(lead.keyword)))
  }

  function WithoutLead(t: Option<Tail>): Option<Capture> {
    match t
    case None => None
    case Some(t) => Some(Capture(t.end, t.name, None))
  }

  // ------------------------------------------------------------ C# field

  /** `(?:\s*=\s*[^;]+)?;` after the name at `n`: the initializer, taken when
      some non-`;` text follows `=` before the next `;`. Greedy `\s*` gives
      back whitespace to `[^;]+`, so `x = ;` matches as well. */
  function InitializerEnd(s: string, n: nat): (r: Option<nat>)
    requires n <= |s|
    ensures r.Some? ==> n < r.value <= |s|
  {
    var e := RunEnd(s, n, IsSpace);
    if e < |s| && s[e] == '=' then
      var k := IndexOfFrom(s, ';', e + 1);
      if k > e + 1 then Some(k + 1) else None
    else None
  }

  /** `[\w<>[\]]+\s+(\w+)(?:\s*=\s*[^;]+)?;` at `c`. */
  function FieldTail(s: string, c: nat): (r: Option<Tail>)
    requires c <= |s|
    ensures TailAfter(s, c, r)
  {
    var t := RunEnd(s, c, IsTypeChar);
    var w := RunEnd(s, t, IsSpace);
    var n := WordEnd(s, w);
    if t == c || w == t || n == w then None
    else
      var init := InitializerEnd(s, n);
      if init.Some? then Some(Tail(init.value, s[w..n]))
      else if n < |s| && s[n] == ';' then Some(Tail(n + 1, s[w..n]))
      else None
  }

  /** `(?:(public|private|protected|internal)\s+)(?:readonly\s+)?(?:[\w<>[\]]+\s+)(\w+)(?:\s*=\s*[^;]+)?;`
      If the path through `readonly` fails, the engine retries with
      `readonly` read as the type token. */
  function CSharpFieldAt(s: string, q: nat): (r: Option<Capture>)
    requires q <= |s|
    ensures r.Some? ==> WellFormed(CSharpField, s, q, r.value)
  {
    match LeadAt(s, q, CSharpVisibilities)
    case None => None
    case Some(lead) =>
      var viaReadonly :=
        match ModifierAt(s, lead.next, "readonly")
        case None => None
        case Some(b) => FieldTail(s, b);
      WithLead(lead, if viaReadonly.Some? then viaReadonly else FieldTail(s, lead.next))
  }

  // --------------------------------------------------------- C# property

  /** `\s*{\s*get;\s*set;\s*}` at `i`. */
  function AccessorsEnd(s: string, i: nat): (r: Option<nat>)
    requires i <= |s|
    ensures r.Some? ==> i < r.value <= |s|
  {
    var a := RunEnd(s, i, IsSpace);
    if !CharAt(s, a, '{') then None
    else
      var b := RunEnd(s, a + 1, IsSpace);
      if !StartsAt(s, b, "get;") then None
      else
        var c := RunEnd(s, b + 4, IsSpace);
        if !StartsAt(s, c, "set;") then None
        else
          var d := RunEnd(s, c + 4, IsSpace);
          if !CharAt(s, d, '}') then None else Some(d + 1)
  }

  /** `(\w+)\s*{\s*get;\s*set;\s*}` at `c`. */
  function PropertyName(s: string, c: nat): (r: Option<Tail>)
    requires c <= |s|
    ensures TailAfter(s, c, r)
  {
    var n := WordEnd(s, c);
    if n == c then None
    else
      match AccessorsEnd(s, n)
      case None => None
      case Some(e) => Some(Tail(e, s[c..n]))
  }

  /** `(?:[\w<>[\]]+\s+)?(\w+)\s*{\s*get;\s*set;\s*}` at `c`: with a type
      token first, then without. */
  function PropertyTail(s: string, c: nat): (r: Option<Tail>)
    requires c <= |s|
    ensures TailAfter(s, c, r)
  {
    var t := RunEnd(s, c, IsTypeChar);
    var w := RunEnd(s, t, IsSpace);
    var typed := if t > c && w > t then PropertyName(s, w) else None;
    if typed.Some? then typed else PropertyName(s, c)
  }

  /** `(?:(public|private|protected|internal)\s+)(?:virtual\s+)?(?:[\w<>[\]]+\s+)?(\w+)\s*{\s*get;\s*set;\s*}` */
  function CSharpPropertyAt(s: string, q: nat): (r: Option<Capture>)
    requires q <= |s|
    ensures r.Some? ==> WellFormed(CSharpProperty, s, q, r.value)
  {
    match LeadAt(s, q, CSharpVisibilities)
    case None => None
    case Some(lead) =>
      var viaVirtual :=
        match ModifierAt(s, lead.next, "virtual")
        case None => None
        case Some(b) => PropertyTail(s, b);
      WithLead(lead, if viaVirtual.Some? then viaVirtual else PropertyTail(s, lead.next))
  }

  // ----------------------------------------------------------- C# method

  /** Position of the `(` after the method name, with the name. */
  datatype Head = Head(paren: nat, name: string)

  /** `(?:[\w<>[\]]+\s+)+(\w+)\s*\(` at `b`, after `tokens` type tokens were
      already read. The optional `override`/`virtual`/`async` groups read
      words that the type-token loop would read as well, and a type token
      ends only at whitespace, so the name is the token right before the
      first `(` and at least one type token must precede it. */
  function MethodHead(s: string, b: nat, tokens: nat): (r: Option<Head>)
    requires b <= |s|
    ensures r.Some? ==> b < r.value.paren < |s| && s[r.value.paren] == '(' &&
                        IsIdentifier(r.value.name)
    decreases |s| - b
  {
    var t := RunEnd(s, b, IsTypeChar);
    if t == b then None
    else
      var w := RunEnd(s, t, IsSpace);
      if w < |s| && s[w] == '(' then
        if tokens >= 1 && AllWord(s[b..t]) then Some(Head(w, s[b..t])) else None
      else if w > t then MethodHead(s, w, tokens + 1)
      else None
  }

  /** Offset just after `\([^)]*\)\s*{` at the `(`. */
  function ParametersThenBrace(s: string, paren: nat): (r: Option<nat>)
    requires paren < |s|
    ensures r.Some? ==> paren < r.value <= |s|
  {
    var close := IndexOfFrom(s, ')', paren + 1);
    if close == -1 then None
    else
      var x := RunEnd(s, close + 1, IsSpace);
      if CharAt(s, x, '{') then Some(x + 1) else None
  }

  /** Start of the line holding offset `k`. */
  function LineStart(s: string, k: nat): (i: nat)
    requires k <= |s|
    ensures i <= k
  {
    RunStart(s, k, c => c != '\n')
  }

  /** The negative lookbehind `(?<!\/\/[^\n]*)` fails at `k`: a `//` occurs
      earlier on the same line. */
  predicate LineCommentBefore(s: string, k: nat)
    requires k <= |s|
  {
    exists j :: LineStart(s, k) <= j && j + 2 <= k && s[j] == '/' && s[j + 1] == '/'
  }

  /** `[\s\S]*?(?:(?<!\/\/[^\n]*)\})` at `i`: up to the first `}` that is not
      behind a line comment. */
  function LazyBodyEnd(s: string, i: nat): (r: Option<nat>)
    requires i <= |s|
    ensures r.Some? ==> i < r.value <= |s| && s[r.value - 1] == '}'
    ensures r.Some? ==> !LineCommentBefore(s, r.value - 1)
    ensures r.Some? ==> forall k :: i <= k < r.value - 1 ==> s[k] != '}' || LineCommentBefore(s, k)
    decreases |s| - i
  {
    if i == |s| then None
    else if s[i] == '}' && !LineCommentBefore(s, i) then Some(i + 1)
    else LazyBodyEnd(s, i + 1)
  }

  /** `(?:[^{}]|{[^{}]*})*}` at `i`: a body in which braces nest one level. */
  function NestedBodyEnd(s: string, i: nat): (r: Option<nat>)
    requires i <= |s|
    ensures r.Some? ==> i < r.value <= |s| && s[r.value - 1] == '}'
    decreases |s| - i
  {
    if i == |s| then None
    else if s[i] == '}' then Some(i + 1)
    else if s[i] == '{' then
      var open := IndexOfFrom(s, '{', i + 1);
      var close := IndexOfFrom(s, '}', i + 1);
      if close != -1 && (open == -1 || close < open) then NestedBodyEnd(s, close + 1)
      else None
    else NestedBodyEnd(s, i + 1)
  }

  /** The common prefix of both C# method patterns, through the `{` that opens
      the body: `(vis)\s+(?:override\s+)?(?:virtual\s+)?(?:async\s+)?(?:[\w<>[\]]+\s+)+(\w+)\s*\([^)]*\)\s*{` */
  datatype Opening = Opening(keyword: string, name: string, bodyStart: nat)

  function MethodOpeningAt(s: string, q: nat): (r: Option<Opening>)
    requires q <= |s|
    ensures r.Some? ==> q + |r.value.keyword| < r.value.bodyStart <= |s| && IsIdentifier(r.value.name) &&
                        r.value.keyword in CSharpVisibilities && StartsAt(s, q, r.value.keyword)
  {
    match LeadAt(s, q, CSharpVisibilities)
    case None => None
    case Some(lead) =>
      match MethodHead(s, lead.next, 0)
      case None => None
      case Some(head) =>
        match ParametersThenBrace(s, head.paren)
        case None => None
        case Some(b) => Some(Opening(lead.keyword, head.name, b))
  }

  /** The method pattern of src/csharpParser.ts: the body ends at the first
      `}` not behind `//` on its line, which under-captures nested bodies. */
  function CSharpMethodAt(s: string, q: nat): (r: Option<Capture>)
    requires q <= |s|
    ensures r.Some? ==> WellFormed(CSharpMethod, s, q, r.value)
  {
    match MethodOpeningAt(s, q)
    case None => None
    case Some(o) =>
      match LazyBodyEnd(s, o.bodyStart)
      case None => None
      case Some(e) => Some(Capture(e, o.name, Some(o.keyword)))
  }

  /** The method pattern of the unused copy in src/parser.ts. */
  function CSharpNestedMethodAt(s: string, q: nat): (r: Option<Capture>)
    requires q <= |s|
    ensures r.Some? ==> WellFormed(CSharpNestedMethod, s, q, r.value)
  {
    match MethodOpeningAt(s, q)
    case None => None
    case Some(o) =>
      match NestedBodyEnd(s, o.bodyStart)
      case None => None
      case Some(e) => Some(Capture(e, o.name, Some(o.keyword)))
  }

  // ----------------------------------------------------------- TypeScript

  /** `.+?;` at `i`: at least one character, lazily, up to a `;`, on one line. */
  function LazyLineToSemicolon(s: string, i: nat): (r: Option<nat>)
    requires i <= |s|
    ensures r.Some? ==> i + 1 < r.value <= |s|
  {
    if i < |s| && IsDotChar(s[i]) then SemicolonFrom(s, i + 1) else None
  }

  function SemicolonFrom(s: string, k: nat): (r: Option<nat>)
    requires k <= |s|
    ensures r.Some? ==> k < r.value <= |s|
    decreases |s| - k
  {
    if k < |s| && s[k] == ';' then Some(k + 1)
    else if k < |s| && IsDotChar(s[k]) then SemicolonFrom(s, k + 1)
    else None
  }

  /** `\s*{\s*get;?\s*set;?\s*}` at `i`. */
  function LooseAccessorsEnd(s: string, i: nat): (r: Option<nat>)
    requires i <= |s|
    ensures r.Some? ==> i < r.value <= |s|
  {
    var a := RunEnd(s, i, IsSpace);
    if !CharAt(s, a, '{') then None
    else
      var b := RunEnd(s, a + 1, IsSpace);
      if !StartsAt(s, b, "get") then None
      else
        var b' := if CharAt(s, b + 3, ';') then b + 4 else b + 3;
        var c := RunEnd(s, b', IsSpace);
        if !StartsAt(s, c, "set") then None
        else
          var c' := if CharAt(s, c + 3, ';') then c + 4 else c + 3;
          var d := RunEnd(s, c', IsSpace);
          if !CharAt(s, d, '}') then None else Some(d + 1)
  }

  /** `(?:=.+?;|;|\s*{\s*get;?\s*set;?\s*})` at `i`, alternatives in order. */
  function TerminatorEnd(s: string, i: nat): (r: Option<nat>)
    requires i <= |s|
    ensures r.Some? ==> i < r.value <= |s|
  {
    var initialized := if CharAt(s, i, '=') then LazyLineToSemicolon(s, i + 1) else None;
    if initialized.Some? then initialized
    else if CharAt(s, i, ';') then Some(i + 1)
    else LooseAccessorsEnd(s, i)
  }

  /** `(\w+)\s*(?::\s*[\w<>[\]]+\s*)?(?:=.+?;|;|\s*{\s*get;?\s*set;?\s*})` at `c`. */
  function TypeScriptPropertyTail(s: string, c: nat): (r: Option<Tail>)
    requires c <= |s|
    ensures TailAfter(s, c, r)
    ensures r.Some? ==> c < |s| && IsWord(s[c])
  {
    var n := WordEnd(s, c);
    if n == c then None
    else
      var w := RunEnd(s, n, IsSpace);
      var typed :=
        if CharAt(s, w, ':') then
          var x := RunEnd(s, w + 1, IsSpace);
          var y := RunEnd(s, x, IsTypeChar);
          if y > x then TerminatorEnd(s, RunEnd(s, y, IsSpace)) else None
        else None;
      var e := if typed.Some? then typed else TerminatorEnd(s, w);
      match e
      case None => None
      case Some(e) => Some(Tail(e, s[c..n]))
  }

  /** `(\w+)\s*\([^)]*\)\s*{[^}]*}` at `c`. */
  function TypeScriptMethodTail(s: string, c: nat): (r: Option<Tail>)
    requires c <= |s|
    ensures TailAfter(s, c, r)
    ensures r.Some? ==> c < |s| && IsWord(s[c])
  {
    var n := WordEnd(s, c);
    var w := RunEnd(s, n, IsSpace);
    if n == c || !CharAt(s, w, '(') then None
    else
      match ParametersThenBrace(s, w)
      case None => None
      case Some(b) =>
        var close := IndexOfFrom(s, '}', b);
        if close == -1 then None else Some(Tail(close + 1, s[c..n]))
  }

  /** A TypeScript pattern `(?:(public|private|protected)\s+)?` + tail: with
      the visibility group first; if the rest fails, the engine retries with
      the keyword read as the name. */
  function OptionalLead(s: string, q: nat, tail: Pattern): (r: Option<Capture>)
    requires q <= |s|
    requires tail == TypeScriptProperty || tail == TypeScriptMethod
    ensures r.Some? ==> WellFormed(tail, s, q, r.value)
  {
    var tailAt := (c: nat) requires c <= |s| =>
      if tail == TypeScriptProperty then TypeScriptPropertyTail(s, c) else TypeScriptMethodTail(s, c);
    var withVisibility :=
      match LeadAt(s, q, TypeScriptVisibilities)
      case None => None
      case Some(lead) =>
        assert s[q] == s[q..q + |lead.keyword|][0] == lead.keyword[0];
        WithLead(lead, tailAt(lead.next));
    if withVisibility.Some? then withVisibility else WithoutLead(tailAt(q))
  }

  // ------------------------------------------------------------ dispatch

  /** An anchored attempt of pattern `p` at offset `q`. */
  function MatchAt(p: Pattern, s: string, q: nat): (r: Option<Capture>)
    requires q <= |s|
    ensures r.Some? ==> WellFormed(p, s, q, r.value)
  {
    match p
    case CSharpField => CSharpFieldAt(s, q)
    case CSharpProperty => CSharpPropertyAt(s, q)
    case CSharpMethod => CSharpMethodAt(s, q)
    case CSharpNestedMethod => CSharpNestedMethodAt(s, q)
    case TypeScriptProperty => OptionalLead(s, q, p)
    case TypeScriptMethod => OptionalLead(s, q, p)
  }

  // ------------------------------------------------------------ exec

  /** An anchored matcher: what an attempt at offset `q` of `s` yields. The
      `exec` loop below works with any matcher, so that its properties do not
      depend on what the patterns look like. */
  type Matcher = (string, nat) -> Option<Capture>

  /** Every match a matcher reports is non-empty and ends inside the text. */
  ghost predicate Advances(m: Matcher) {
    forall s: string, q: nat {:trigger m(s, q)} :: m(s, q).Some? ==> q < m(s, q).value.end <= |s|
  }

  /** The compiled form of pattern `p`. */
  function MatcherOf(p: Pattern): (m: Matcher)
    ensures Advances(m)
  {
    var m := (s: string, q: nat) => if q <= |s| then MatchAt(p, s, q) else None;
    assert Advances(m) by {
      forall s: string, q: nat | m(s, q).Some?
        ensures q < m(s, q).value.end <= |s|
      {
        assert WellFormed(p, s, q, MatchAt(p, s, q).value);
      }
    }
    m
  }

  /** `h` is a match of `m` in `s`: its text is the matched part of `s`. */
  ghost predicate IsHit(m: Matcher, s: string, h: Hit) {
    && h.index + |h.text| <= |s|
    && h.text == s[h.index..h.index + |h.text|]
    && m(s, h.index) == Some(Capture(h.index + |h.text|, h.name, h.visibility))
  }

  /** `m` matches at no offset in `[lo, hi)`. */
  predicate NoMatchBetween(m: Matcher, s: string, lo: int, hi: int)
    requires 0 <= lo
    decreases hi - lo
  {
    lo >= hi || (m(s, lo).None? && NoMatchBetween(m, s, lo + 1, hi))
  }

  lemma {:induction false} NoMatchBetweenAt(m: Matcher, s: string, lo: int, hi: int, q: int)
    requires 0 <= lo && NoMatchBetween(m, s, lo, hi) && lo <= q < hi
    ensures m(s, q).None?
    decreases hi - lo
  {
    if lo < q {
      NoMatchBetweenAt(m, s, lo + 1, hi, q);
    }
  }

  /** One `exec` call with `lastIndex == from`: the leftmost match at or after
      `from`, or none. What it finds is stated by `FindNextFacts`. */
  function FindNext(m: Matcher, s: string, from: nat): (r: Option<Hit>)
    requires from <= |s| && Advances(m)
    ensures r.Some? ==> from <= r.value.index && 0 < |r.value.text| && r.value.index + |r.value.text| <= |s|
    decreases |s| - from
  {
    match m(s, from)
    case Some(c) => Some(Hit(from, s[from..c.end], c.name, c.visibility))
    case None => if from == |s| then None else FindNext(m, s, from + 1)
  }

  /** `FindNext` returns a match, and no match starts between `from` and it;
      when it returns none, no match starts at or after `from`. */
  lemma {:induction false} FindNextFacts(m: Matcher, s: string, from: nat)
    requires from <= |s| && Advances(m)
    ensures FindNext(m, s, from).Some? ==>
              IsHit(m, s, FindNext(m, s, from).value) &&
              NoMatchBetween(m, s, from, FindNext(m, s, from).value.index)
    ensures FindNext(m, s, from).None? ==> NoMatchBetween(m, s, from, |s| + 1)
    decreases |s| - from
  {
    if m(s, from).None? && from < |s| {
      FindNextFacts(m, s, from + 1);
    }
  }

  /** The matches an exec loop starting at `lastIndex == from` visits: each
      `exec` resumes where the previous match ended. */
  function Hits(m: Matcher, s: string, from: nat): (hs: seq<Hit>)
    requires from <= |s| && Advances(m)
    ensures forall i :: 0 <= i < |hs| ==>
              from <= hs[i].index && 0 < |hs[i].text| && hs[i].index + |hs[i].text| <= |s|
    decreases |s| - from
  {
    match FindNext(m, s, from)
    case None => []
    case Some(h) => [h] + Hits(m, s, h.index + |h.text|)
  }

  /** One round of the exec loop: the first hit is what `exec` returns, and
      the rest of the loop resumes at its end. */
  lemma HitsStep(m: Matcher, s: string, from: nat)
    requires from <= |s| && Advances(m)
    ensures FindNext(m, s, from).None? ==> Hits(m, s, from) == []
    ensures FindNext(m, s, from).Some? ==>
              var h := FindNext(m, s, from).value;
              Hits(m, s, from) == [h] + Hits(m, s, h.index + |h.text|)
  {
  }

  /** The hits do not overlap and come in increasing order of offset. */
  lemma {:induction false} HitsOrdered(m: Matcher, s: string, from: nat)
    requires from <= |s| && Advances(m)
    ensures forall i, j :: 0 <= i < j < |Hits(m, s, from)| ==>
              Hits(m, s, from)[i].index + |Hits(m, s, from)[i].text| <= Hits(m, s, from)[j].index
    decreases |s| - from
  {
    var r := FindNext(m, s, from);
    if r.Some? {
      var h := r.value;
      var rest := Hits(m, s, h.index + |h.text|);
      HitsOrdered(m, s, h.index + |h.text|);
      assert Hits(m, s, from) == [h] + rest;
    }
  }

  /** Each hit of the exec loop is a match. */
  lemma {:induction false} HitsFacts(m: Matcher, s: string, from: nat)
    requires from <= |s| && Advances(m)
    ensures forall i :: 0 <= i < |Hits(m, s, from)| ==> IsHit(m, s, Hits(m, s, from)[i])
    decreases |s| - from
  {
    FindNextFacts(m, s, from);
    var r := FindNext(m, s, from);
    if r.Some? {
      var h := r.value;
      HitsFacts(m, s, h.index + |h.text|);
      var rest := Hits(m, s, h.index + |h.text|);
      assert Hits(m, s, from) == [h] + rest;
      forall i | 0 <= i < |Hits(m, s, from)|
        ensures IsHit(m, s, Hits(m, s, from)[i])
      {
        if i > 0 {
          assert Hits(m, s, from)[i] == rest[i - 1];
        }
      }
    }
  }

  /** A hit of a pattern is a match the pattern's recognizer accepts: the
      name is an identifier, and for the C# patterns the visibility group
      always takes part and is the keyword the hit starts with. */
  lemma HitWellFormed(p: Pattern, s: string, h: Hit)
    requires IsHit(MatcherOf(p), s, h)
    ensures 0 < |h.text| && IsIdentifier(h.name)
    ensures p.IsCSharp() ==>
              h.visibility.Some? && h.visibility.value in CSharpVisibilities &&
              StartsAt(h.text, 0, h.visibility.value) && |h.visibility.value| < |h.text|
    ensures !p.IsCSharp() ==> (h.visibility.Some? ==> h.visibility.value in TypeScriptVisibilities) && IsWord(h.text[0])
  {
    var c := MatchAt(p, s, h.index).value;
    assert WellFormed(p, s, h.index, c);
    if p.IsCSharp() {
      assert h.text[0..|h.visibility.value|] == s[h.index..h.index + |h.visibility.value|];
    } else {
      assert h.text[0] == s[h.index];
    }
  }

  /** A pattern finds nothing in the empty string. */
  lemma NoHitsInEmpty(p: Pattern)
    ensures Hits(MatcherOf(p), "", 0) == []
  {
    assert MatcherOf(p)("", 0) == MatchAt(p, "", 0);
    assert MatchAt(p, "", 0).None?;
  }
}
