/** The C# extractor of src/csharpParser.ts: locate the first class, cut out
    its body with the brace scan, and run the field, property and method
    passes over the body with one shared set of seen names. */
module CSharpParser {
  import opened Strings
  import opened Members
  import opened Patterns
  import opened ClassPattern
  import opened Braces
  import opened Dedup

  /** `getClassName`: capture group 1 of the first
      `\s*public\s+(?:partial\s+)?class\s+(\w+)` match, or `""`. */
  function GetClassName(text: string): (r: string)
    ensures r != "" ==> IsIdentifier(r)
    ensures r == "" <==> FirstClassName(text, 0).None?
  {
    FirstClassName(text, 0).GetOr("")
  }

  /** A class head anywhere at or after `from` is found by the search. */
  lemma {:induction false} FirstClassNameFinds(s: string, from: nat, q: nat)
    requires from <= q <= |s| && ClassHeadAt(s, q).Some?
    ensures FirstClassName(s, from).Some?
    decreases q - from
  {
    if ClassHeadAt(s, from).None? {
      FirstClassNameFinds(s, from + 1, q);
    }
  }

  /** Whenever the class signature is found, so is a class name, so the
      constructor check always compares against a real name. */
  lemma ClassNameOfSignature(text: string)
    requires ClassSignature(text, 0).Some?
    ensures GetClassName(text) != ""
  {
    var cm := ClassSignature(text, 0).value;
    ClassSignatureLeftmost(text, 0);
    assert ClassHeadAt(text, cm.index).Some?;
    FirstClassNameFinds(text, 0, cm.index);
  }

  // ------------------------------------------------------------ candidates

  /** Every hit lies inside `body`. */
  predicate Inside(hs: seq<Hit>, body: string) {
    forall k :: 0 <= k < |hs| ==> hs[k].index + |hs[k].text| <= |body|
  }

  /** How a pass turns a match's text into the member's text: as it is (the
      TypeScript extractor), trimmed, or trimmed line by line with the lines
      re-joined under the first line's indentation (the property pass of the
      unused C# copy in src/parser.ts). */
  datatype TextMode = Raw | Trimmed | ByLine

  /** How a pass builds a member from a match: the offset added to the match
      index to get a document offset (`classStart` when the pass runs over a
      class body and says so, otherwise 0), the kind it tags and its text mode. */
  datatype Shape = Shape(offset: nat, kind: Kind, mode: TextMode)

  /** The property text of the unused C# copy: the match split at `\n`, each
      line trimmed, joined with `\n` followed by the first line's leading
      whitespace. */
  function FormatLines(t: string): string {
    var lines := Split(t, '\n');
    Join(TrimAll(lines), "\n" + LeadingSpace(lines[0]))
  }

  function ShapedText(t: string, mode: TextMode): string {
    match mode
    case Raw => t
    case Trimmed => Trim(t)
    case ByLine => FormatLines(t)
  }

  /** The member a simple pass pushes for a match; a missing visibility
      group reads as `'public'`. */
  function PassMember(h: Hit, shape: Shape): Member {
    Member(h.name, h.visibility.GetOr("public"), ShapedText(h.text, shape.mode),
           Span(shape.offset + h.index, shape.offset + h.index + |h.text|), shape.kind)
  }

  /** The members a simple pass would push if no name were taken. */
  function PassCandidates(hs: seq<Hit>, shape: Shape): seq<Member> {
    if hs == [] then [] else [PassMember(hs[0], shape)] + PassCandidates(hs[1..], shape)
  }

  /** The candidates are the members of the hits, one each, in hit order. */
  lemma {:induction false} PassCandidatesMap(hs: seq<Hit>, shape: Shape)
    ensures |PassCandidates(hs, shape)| == |hs|
    ensures forall k :: 0 <= k < |hs| ==> PassCandidates(hs, shape)[k] == PassMember(hs[k], shape)
    decreases |hs|
  {
    if hs != [] {
      PassCandidatesMap(hs[1..], shape);
      assert PassCandidates(hs, shape) == [PassMember(hs[0], shape)] + PassCandidates(hs[1..], shape);
    }
  }

  /** The state a deduplicating simple loop reaches from `lastIndex == from`,
      one `exec` result at a time. */
  function PassFrom(m: Matcher, s: string, from: nat, shape: Shape,
                    members: seq<Member>, seen: set<string>): (seq<Member>, set<string>)
    requires from <= |s| && Advances(m)
    decreases |s| - from
  {
    match FindNext(m, s, from)
    case None => (members, seen)
    case Some(h) =>
      var c := PassMember(h, shape);
      if c.name in seen then PassFrom(m, s, h.index + |h.text|, shape, members, seen)
      else PassFrom(m, s, h.index + |h.text|, shape, members + [c], seen + {c.name})
  }

  /** One round of a simple loop. */
  lemma PassFromNext(m: Matcher, s: string, from: nat, shape: Shape, members: seq<Member>, seen: set<string>)
    requires from <= |s| && Advances(m) && FindNext(m, s, from).Some?
    ensures var h := FindNext(m, s, from).value;
            var next := h.index + |h.text|;
            PassFrom(m, s, from, shape, members, seen) ==
            if h.name in seen then PassFrom(m, s, next, shape, members, seen)
            else PassFrom(m, s, next, shape, members + [PassMember(h, shape)], seen + {h.name})
  {
  }

  /** The loop deduplicates the candidates of all matches from `from` on. */
  lemma {:induction false} PassFromAccumulate(m: Matcher, s: string, from: nat, shape: Shape,
                                              members: seq<Member>, seen: set<string>)
    requires from <= |s| && Advances(m)
    ensures PassFrom(m, s, from, shape, members, seen) ==
            Accumulate(PassCandidates(Hits(m, s, from), shape), members, seen)
    decreases |s| - from
  {
    HitsStep(m, s, from);
    match FindNext(m, s, from)
    case None =>
    case Some(h) =>
      var next := h.index + |h.text|;
      var c := PassMember(h, shape);
      PassCandidatesCons(h, Hits(m, s, next), shape);
      AccumulateCons(c, PassCandidates(Hits(m, s, next), shape), members, seen);
      if c.name in seen {
        PassFromAccumulate(m, s, next, shape, members, seen);
      } else {
        PassFromAccumulate(m, s, next, shape, members + [c], seen + {c.name});
      }
  }

  lemma PassCandidatesCons(h: Hit, hs: seq<Hit>, shape: Shape)
    ensures PassCandidates([h] + hs, shape) == [PassMember(h, shape)] + PassCandidates(hs, shape)
  {
    assert ([h] + hs)[0] == h && ([h] + hs)[1..] == hs;
  }

  /** The member the method pass pushes: its text is extended until its
      braces balance, and the range end follows the extended text. */
  function MethodMember(body: string, h: Hit, classStart: nat): Member
    requires h.index + |h.text| <= |body|
  {
    var e := ExtendedEnd(body, h.index, h.index + |h.text|);
    Member(h.name, h.visibility.GetOr("public"), Trim(body[h.index..e]),
           Span(classStart + h.index, classStart + e), Method)
  }

  /** The member the method loop pushes for hit `h` once its text is
      extended to `methodText`. */
  lemma MethodMemberOfText(body: string, h: Hit, classStart: nat, methodText: string)
    requires h.index + |h.text| <= |body|
    requires methodText == body[h.index..ExtendedEnd(body, h.index, h.index + |h.text|)]
    ensures MethodMember(body, h, classStart) ==
            Member(h.name, h.visibility.GetOr("public"), Trim(methodText),
                   Span(classStart + h.index, classStart + h.index + |methodText|), Method)
  {
  }

  /** The members the method pass would push if no name were taken: a match
      named like the class (a constructor) is dropped. */
  function MethodCandidates(body: string, hs: seq<Hit>, classStart: nat, className: string): seq<Member>
    requires Inside(hs, body)
  {
    if hs == [] then []
    else
      (if hs[0].name == className then [] else [MethodMember(body, hs[0], classStart)]) +
      MethodCandidates(body, hs[1..], classStart, className)
  }

  lemma MethodCandidatesCons(body: string, h: Hit, hs: seq<Hit>, classStart: nat, className: string)
    requires h.index + |h.text| <= |body| && Inside(hs, body)
    ensures Inside([h] + hs, body)
    ensures MethodCandidates(body, [h] + hs, classStart, className) ==
            (if h.name == className then [] else [MethodMember(body, h, classStart)]) +
            MethodCandidates(body, hs, classStart, className)
  {
    assert ([h] + hs)[0] == h && ([h] + hs)[1..] == hs;
    assert forall k :: 0 <= k < |hs| ==> hs[k] == ([h] + hs)[k + 1];
  }

  /** The state the method loop reaches from `lastIndex == from`, one `exec`
      result at a time. */
  function MethodFrom(m: Matcher, s: string, from: nat, classStart: nat, className: string,
                      members: seq<Member>, seen: set<string>): (seq<Member>, set<string>)
    requires from <= |s| && Advances(m)
    decreases |s| - from
  {
    match FindNext(m, s, from)
    case None => (members, seen)
    case Some(h) =>
      var next := h.index + |h.text|;
      if h.name == className || h.name in seen then MethodFrom(m, s, next, classStart, className, members, seen)
      else MethodFrom(m, s, next, classStart, className, members + [MethodMember(s, h, classStart)], seen + {h.name})
  }

  /** The method loop deduplicates the candidates of all matches from `from`
      on, constructors left out. */
  lemma {:induction false} MethodFromAccumulate(m: Matcher, s: string, from: nat, classStart: nat,
                                                className: string, members: seq<Member>, seen: set<string>)
    requires from <= |s| && Advances(m)
    ensures Inside(Hits(m, s, from), s)
    ensures MethodFrom(m, s, from, classStart, className, members, seen) ==
            Accumulate(MethodCandidates(s, Hits(m, s, from), classStart, className), members, seen)
    decreases |s| - from
  {
    HitsStep(m, s, from);
    HitsInside(m, s, from);
    match FindNext(m, s, from)
    case None =>
    case Some(h) =>
      var next := h.index + |h.text|;
      var hs := Hits(m, s, next);
      HitsInside(m, s, next);
      MethodCandidatesCons(s, h, hs, classStart, className);
      var rest := MethodCandidates(s, hs, classStart, className);
      var c := MethodMember(s, h, classStart);
      var skip := h.name == className || h.name in seen;
      var members', seen' := if skip then members else members + [c], if skip then seen else seen + {h.name};
      MethodFromNext(m, s, from, classStart, className, members, seen);
      if h.name == className {
        assert [] + rest == rest;
      } else {
        AccumulateCons(c, rest, members, seen);
      }
      MethodFromAccumulate(m, s, next, classStart, className, members', seen');
  }

  /** One round of the method loop. */
  lemma MethodFromNext(m: Matcher, s: string, from: nat, classStart: nat, className: string,
                       members: seq<Member>, seen: set<string>)
    requires from <= |s| && Advances(m) && FindNext(m, s, from).Some?
    ensures var h := FindNext(m, s, from).value;
            var next := h.index + |h.text|;
            MethodFrom(m, s, from, classStart, className, members, seen) ==
            if h.name == className || h.name in seen then MethodFrom(m, s, next, classStart, className, members, seen)
            else MethodFrom(m, s, next, classStart, className, members + [MethodMember(s, h, classStart)], seen + {h.name})
  {
  }

  /** The hits of an exec loop over `s` lie inside `s`. */
  lemma HitsInside(m: Matcher, s: string, from: nat)
    requires from <= |s| && Advances(m)
    ensures Inside(Hits(m, s, from), s)
  {
    HitsFacts(m, s, from);
  }

  /** All candidates of the three passes, in pass order. */
  function Candidates(text: string, classStart: nat, body: string): seq<Member> {
    var methodHits := Hits(MatcherOf(CSharpMethod), body, 0);
    assert Inside(methodHits, body);
    PassCandidates(Hits(MatcherOf(CSharpField), body, 0), Shape(classStart, Field, Trimmed)) +
    PassCandidates(Hits(MatcherOf(CSharpProperty), body, 0), Shape(classStart, Property, Trimmed)) +
    MethodCandidates(body, methodHits, classStart, GetClassName(text))
  }

  /** What `parseWithRegex` returns for a document. */
  function CSharpMembers(text: string): seq<Member> {
    match ClassSignature(text, 0)
    case None => []
    case Some(cm) =>
      var classStart := cm.end;
      KeepFirst(Candidates(text, classStart, text[classStart..ClassEnd(text, classStart)]), {})
  }

  // --------------------------------------------------------- the extractor

  /** `parseWithRegex`: the document text in, the member list out. */
  method ParseWithRegex(text: string) returns (members: seq<Member>)
    ensures members == CSharpMembers(text)
  {
    members := [];
    var seenMembers: set<string> := {};
    var classMatch := ClassSignature(text, 0);
    if classMatch.None? {
      return;
    }
    var classStart := classMatch.value.end;
    var classEnd := FindClassEnd(text, classStart);
    var textToParse := text[classStart..classEnd];
    ghost var fields := PassCandidates(Hits(MatcherOf(CSharpField), textToParse, 0), Shape(classStart, Field, Trimmed));
    ghost var properties := PassCandidates(Hits(MatcherOf(CSharpProperty), textToParse, 0),
                                           Shape(classStart, Property, Trimmed));
    ghost var methodHits := Hits(MatcherOf(CSharpMethod), textToParse, 0);
    assert Inside(methodHits, textToParse);
    ghost var methods := MethodCandidates(textToParse, methodHits, classStart, GetClassName(text));
    assert Candidates(text, classStart, textToParse) == fields + properties + methods;

    members, seenMembers := SimplePass(MatcherOf(CSharpField), Shape(classStart, Field, Trimmed), textToParse,
                                       members, seenMembers);
    members, seenMembers := SimplePass(MatcherOf(CSharpProperty), Shape(classStart, Property, Trimmed), textToParse,
                                       members, seenMembers);
    members := MethodPass(MatcherOf(CSharpMethod), GetClassName(text), textToParse, classStart, members, seenMembers);

    AccumulateAppend(fields, properties, [], {});
    AccumulateAppend(fields + properties, methods, [], {});
    AccumulateKeepFirst(fields + properties + methods, [], {});
  }

  /** A pass without extension: the `exec` loop of matcher `m` pushes each
      match whose name is not yet in `seenMembers`, adding the name; a match
      is pushed as `PassMember` builds it with `shape`. The field and property
      passes of both C# extractors and the method pass of the unused copy. */
  method SimplePass(m: Matcher, shape: Shape, textToParse: string,
                    members0: seq<Member>, seen0: set<string>)
    returns (members: seq<Member>, seenMembers: set<string>)
    requires Advances(m)
    ensures (members, seenMembers) == Accumulate(PassCandidates(Hits(m, textToParse, 0), shape), members0, seen0)
  {
    members, seenMembers := members0, seen0;
    var lastIndex := 0;
    while true
      invariant lastIndex <= |textToParse|
      invariant PassFrom(m, textToParse, lastIndex, shape, members, seenMembers) ==
                PassFrom(m, textToParse, 0, shape, members0, seen0)
      decreases |textToParse| - lastIndex
    {
      ghost var from := lastIndex;
      var hit := FindNext(m, textToParse, lastIndex);
      if hit.None? {
        break;
      }
      PassFromNext(m, textToParse, from, shape, members, seenMembers);
      var h := hit.value;
      var accessModifier := h.visibility.GetOr("public");
      var name := h.name;
      if name !in seenMembers {
        seenMembers := seenMembers + {name};
        var text := ShapedText(h.text, shape.mode);
        members := members + [Member(name, accessModifier, text,
                                     Span(shape.offset + h.index, shape.offset + h.index + |h.text|), shape.kind)];
      }
      lastIndex := h.index + |h.text|;
    }
    PassFromAccumulate(m, textToParse, 0, shape, members0, seen0);
  }

  /** The method pass: a match named like the class is skipped before the
      seen-set check, and a kept match's text is extended until its braces
      balance; a match is pushed as `MethodMember` builds it. `className` is
      `getClassName(text)`, which the source evaluates again on every round;
      the document does not change in between, so neither does the value. */
  method MethodPass(m: Matcher, className: string, textToParse: string, classStart: nat,
                    members0: seq<Member>, seen0: set<string>)
    returns (members: seq<Member>)
    requires Advances(m)
    ensures Inside(Hits(m, textToParse, 0), textToParse)
    ensures members == Accumulate(MethodCandidates(textToParse, Hits(m, textToParse, 0),
                                                   classStart, className), members0, seen0).0
  {
    members := members0;
    var seenMembers := seen0;
    var lastIndex := 0;
    while true
      invariant lastIndex <= |textToParse|
      invariant MethodFrom(m, textToParse, lastIndex, classStart, className, members, seenMembers) ==
                MethodFrom(m, textToParse, 0, classStart, className, members0, seen0)
      decreases |textToParse| - lastIndex
    {
      var hit := FindNext(m, textToParse, lastIndex);
      if hit.None? {
        break;
      }
      var h := hit.value;
      var accessModifier := h.visibility.GetOr("public");
      var name := h.name;
      ghost var from := lastIndex;
      MethodFromNext(m, textToParse, from, classStart, className, members, seenMembers);
      lastIndex := h.index + |h.text|;
      if name == className {
        continue;
      }
      if name in seenMembers {
        continue;
      }
      seenMembers := seenMembers + {name};
      var methodText := ExtendMethodText(textToParse, h.index, h.index + |h.text|);
      var member := Member(name, accessModifier, Trim(methodText),
                           Span(classStart + h.index, classStart + h.index + |methodText|), Method);
      MethodMemberOfText(textToParse, h, classStart, methodText);
      members := members + [member];
    }
    MethodFromAccumulate(m, textToParse, 0, classStart, className, members0, seen0);
  }

  // ------------------------------------------------------------ properties

  /** What a hit of a C# pattern in `body` looks like: its text is the part
      of `body` at its index, and starts with its visibility keyword, one of
      the four; its name is an identifier. */
  ghost predicate CSharpHit(body: string, h: Hit) {
    && 0 < |h.text| && h.index + |h.text| <= |body|
    && h.text == body[h.index..h.index + |h.text|]
    && IsIdentifier(h.name)
    && h.visibility.Some? && h.visibility.value in CSharpVisibilities
    && StartsAt(h.text, 0, h.visibility.value)
  }

  /** The hits of one exec loop of a C# pattern over `body`, as `HitsFacts`
      and `HitsOrdered` describe them: in order and not overlapping. */
  ghost predicate ExecHits(body: string, hs: seq<Hit>) {
    && (forall k :: 0 <= k < |hs| ==> CSharpHit(body, hs[k]))
    && (forall i, j :: 0 <= i < j < |hs| ==> hs[i].index + |hs[i].text| <= hs[j].index)
  }

  lemma HitsAreExecHits(p: Pattern, body: string)
    requires p.IsCSharp()
    ensures ExecHits(body, Hits(MatcherOf(p), body, 0))
  {
    var hs := Hits(MatcherOf(p), body, 0);
    HitsFacts(MatcherOf(p), body, 0);
    HitsOrdered(MatcherOf(p), body, 0);
    forall k | 0 <= k < |hs|
      ensures CSharpHit(body, hs[k])
    {
      HitWellFormed(p, body, hs[k]);
    }
  }

  lemma ExecHitsTail(body: string, hs: seq<Hit>)
    requires ExecHits(body, hs) && hs != []
    ensures ExecHits(body, hs[1..])
  {
    assert forall k :: 0 <= k < |hs[1..]| ==> hs[1..][k] == hs[k + 1];
  }

  /** What every member the C# extractor reports satisfies, for the class
      body `text[classStart..classEnd]`: its visibility is one of the four
      keywords, its name an identifier, its range a non-empty part of the
      class body, and its text that range trimmed, which is never empty. */
  ghost predicate Reported(c: Member, text: string, classStart: nat, classEnd: nat) {
    && c.visibility in CSharpVisibilities
    && IsIdentifier(c.name)
    && c.text != "" && IsTrimmed(c.text)
    && classStart <= c.span.start < c.span.end <= classEnd <= |text|
    && c.text == Trim(text[c.span.start..c.span.end])
  }

  lemma KeywordStart(v: string)
    requires v in CSharpVisibilities
    ensures |v| > 0 && !IsSpace(v[0])
  {
  }

  lemma PassMemberReported(text: string, classStart: nat, classEnd: nat, h: Hit, kind: Kind)
    requires classStart <= classEnd <= |text| && CSharpHit(text[classStart..classEnd], h)
    ensures Reported(PassMember(h, Shape(classStart, kind, Trimmed)), text, classStart, classEnd)
  {
    var v := h.visibility.value;
    KeywordStart(v);
    assert h.text[0] == h.text[0..|v|][0] == v[0];
    TrimNonEmpty(h.text);
    TrimIsTrimmed(h.text);
    SliceOfSlice(text, classStart, classEnd, h.index, h.index + |h.text|);
  }

  lemma MethodMemberReported(text: string, classStart: nat, classEnd: nat, h: Hit)
    requires classStart <= classEnd <= |text| && CSharpHit(text[classStart..classEnd], h)
    ensures Reported(MethodMember(text[classStart..classEnd], h, classStart), text, classStart, classEnd)
  {
    var body := text[classStart..classEnd];
    var e := ExtendedEnd(body, h.index, h.index + |h.text|);
    assert h.index + |h.text| <= e <= |body| == classEnd - classStart;
    assert MethodMember(body, h, classStart) ==
           Member(h.name, h.visibility.GetOr("public"), Trim(body[h.index..e]), Span(classStart + h.index, classStart + e), Method);
    ExtendedReported(text, classStart, classEnd, h, e);
  }

  /** A method whose text runs from its hit to any end `e` past the hit is a
      reported member. */
  lemma ExtendedReported(text: string, classStart: nat, classEnd: nat, h: Hit, e: nat)
    requires classStart <= classEnd <= |text| && CSharpHit(text[classStart..classEnd], h)
    requires h.index + |h.text| <= e <= classEnd - classStart
    ensures Reported(Member(h.name, h.visibility.GetOr("public"), Trim(text[classStart..classEnd][h.index..e]),
                            Span(classStart + h.index, classStart + e), Method), text, classStart, classEnd)
  {
    var body := text[classStart..classEnd];
    var v := h.visibility.value;
    KeywordStart(v);
    assert h.text[0] == h.text[0..|v|][0] == v[0];
    var t := body[h.index..e];
    assert t[0] == body[h.index] == h.text[0];
    TrimNonEmpty(t);
    TrimIsTrimmed(t);
    SliceOfSlice(text, classStart, classEnd, h.index, e);
  }

  /** The candidates of a simple pass carry its kind and come in document
      order, none before the first hit. */
  lemma PassCandidatesOrder(hs: seq<Hit>, shape: Shape)
    requires forall i, j :: 0 <= i < j < |hs| ==> hs[i].index < hs[j].index
    ensures forall c :: c in PassCandidates(hs, shape) ==>
              c.kind == shape.kind && (hs != [] ==> shape.offset + hs[0].index <= c.span.start)
    ensures Chain(PassCandidates(hs, shape), PassOrder)
  {
    PassCandidatesMap(hs, shape);
    var cs := PassCandidates(hs, shape);
    forall c | c in cs
      ensures c.kind == shape.kind && (hs != [] ==> shape.offset + hs[0].index <= c.span.start)
    {
      var k :| 0 <= k < |cs| && cs[k] == c;
      assert k == 0 || hs[0].index < hs[k].index;
    }
  }

  /** The field or property candidates of the C# extractor are reported
      members, in document order. */
  lemma PassCandidatesReported(text: string, classStart: nat, classEnd: nat, hs: seq<Hit>, kind: Kind)
    requires classStart <= classEnd <= |text|
    requires ExecHits(text[classStart..classEnd], hs)
    ensures forall c :: c in PassCandidates(hs, Shape(classStart, kind, Trimmed)) ==>
              Reported(c, text, classStart, classEnd) && c.kind == kind &&
              (hs != [] ==> classStart + hs[0].index <= c.span.start)
    ensures Chain(PassCandidates(hs, Shape(classStart, kind, Trimmed)), PassOrder)
  {
    var shape := Shape(classStart, kind, Trimmed);
    PassCandidatesMap(hs, shape);
    PassCandidatesOrder(hs, shape);
    var cs := PassCandidates(hs, shape);
    forall c | c in cs
      ensures Reported(c, text, classStart, classEnd)
    {
      var k :| 0 <= k < |cs| && cs[k] == c;
      PassMemberReported(text, classStart, classEnd, hs[k], kind);
    }
  }

  /** The method candidates are reported methods, none named like the class,
      in document order, none before the first hit. */
  lemma {:induction false} MethodCandidatesFacts(text: string, classStart: nat, classEnd: nat,
                                                 hs: seq<Hit>, className: string)
    requires classStart <= classEnd <= |text|
    requires ExecHits(text[classStart..classEnd], hs) && Inside(hs, text[classStart..classEnd])
    ensures forall c :: c in MethodCandidates(text[classStart..classEnd], hs, classStart, className) ==>
              Reported(c, text, classStart, classEnd) && c.kind == Method && c.name != className &&
              (hs != [] ==> classStart + hs[0].index <= c.span.start)
    ensures Chain(MethodCandidates(text[classStart..classEnd], hs, classStart, className), PassOrder)
    decreases |hs|
  {
    if hs != [] {
      var body := text[classStart..classEnd];
      ExecHitsTail(body, hs);
      assert Inside(hs[1..], body) by {
        assert forall k :: 0 <= k < |hs[1..]| ==> hs[1..][k] == hs[k + 1];
      }
      MethodCandidatesFacts(text, classStart, classEnd, hs[1..], className);
      var rest := MethodCandidates(body, hs[1..], classStart, className);
      if |hs| > 1 {
        assert hs[1..][0] == hs[1];
        assert hs[0].index + |hs[0].text| <= hs[1].index;
      }
      if hs[0].name == className {
        assert MethodCandidates(body, hs, classStart, className) == [] + rest;
        assert [] + rest == rest;
      } else {
        var c := MethodMember(body, hs[0], classStart);
        MethodMemberReported(text, classStart, classEnd, hs[0]);
        assert MethodCandidates(body, hs, classStart, className) == [c] + rest;
        ChainConcat([c], rest, PassOrder);
      }
    }
  }

  /** All candidates of a class body are reported members in pass order. */
  lemma CandidatesFacts(text: string, classStart: nat, classEnd: nat)
    requires classStart <= classEnd <= |text|
    ensures forall c :: c in Candidates(text, classStart, text[classStart..classEnd]) ==>
              Reported(c, text, classStart, classEnd) && (c.kind == Method ==> c.name != GetClassName(text))
    ensures Chain(Candidates(text, classStart, text[classStart..classEnd]), PassOrder)
  {
    var body := text[classStart..classEnd];
    var fh := Hits(MatcherOf(CSharpField), body, 0);
    var ph := Hits(MatcherOf(CSharpProperty), body, 0);
    var mh := Hits(MatcherOf(CSharpMethod), body, 0);
    assert Inside(mh, body);
    HitsAreExecHits(CSharpField, body);
    HitsAreExecHits(CSharpProperty, body);
    HitsAreExecHits(CSharpMethod, body);
    var f := PassCandidates(fh, Shape(classStart, Field, Trimmed));
    var pr := PassCandidates(ph, Shape(classStart, Property, Trimmed));
    var me := MethodCandidates(body, mh, classStart, GetClassName(text));
    PassCandidatesReported(text, classStart, classEnd, fh, Field);
    PassCandidatesReported(text, classStart, classEnd, ph, Property);
    MethodCandidatesFacts(text, classStart, classEnd, mh, GetClassName(text));
    ChainConcat(f, pr, PassOrder);
    ChainConcat(f + pr, me, PassOrder);
    assert Candidates(text, classStart, body) == f + pr + me;
  }

  /** What `parseWithRegex` promises about a document with a class: every
      name is reported once, by the first candidate that has it (fields
      before properties before methods); every candidate name is reported;
      the members come in pass order; each is a well-formed part of the class
      body; and no method is named like the class. */
  lemma CSharpMembersFacts(text: string)
    requires ClassSignature(text, 0).Some?
    ensures var classStart := ClassSignature(text, 0).value.end;
            var classEnd := ClassEnd(text, classStart);
            var cands := Candidates(text, classStart, text[classStart..classEnd]);
            var r := CSharpMembers(text);
            && NamesUnique(r)
            && Names(r) == Names(cands)
            && (forall k :: 0 <= k < |r| ==>
                  FindIndex(cands, r[k].name) >= 0 && cands[FindIndex(cands, r[k].name)] == r[k])
            && Chain(r, PassOrder)
            && (forall k :: 0 <= k < |r| ==> Reported(r[k], text, classStart, classEnd))
            && (forall k :: 0 <= k < |r| ==> r[k].kind == Method ==> r[k].name != GetClassName(text))
  {
    var classStart := ClassSignature(text, 0).value.end;
    ClassEndFacts(text, classStart);
    var classEnd := ClassEnd(text, classStart);
    var cands := Candidates(text, classStart, text[classStart..classEnd]);
    CandidatesFacts(text, classStart, classEnd);
    KeepFirstFacts(cands, {});
    KeepFirstNames(cands, {});
    KeepFirstIsFirst(cands, {});
    KeepFirstChain(cands, {}, PassOrder);
  }

  /** `parseWithRegex` reports nothing for a document without a class
      signature, and nothing for a class whose braces never balance (its body
      is then empty). */
  lemma CSharpMembersEmpty(text: string)
    ensures ClassSignature(text, 0).None? ==> CSharpMembers(text) == []
    ensures ClassSignature(text, 0).Some? &&
            MatchingBrace(text, ClassSignature(text, 0).value.end, ClassSignature(text, 0).value.end).None? ==>
              CSharpMembers(text) == []
  {
    if ClassSignature(text, 0).Some? {
      var classStart := ClassSignature(text, 0).value.end;
      ClassEndFacts(text, classStart);
      if MatchingBrace(text, classStart, classStart).None? {
        var body := text[classStart..ClassEnd(text, classStart)];
        assert body == "";
        NoHitsInEmpty(CSharpField);
        NoHitsInEmpty(CSharpProperty);
        NoHitsInEmpty(CSharpMethod);
        assert Candidates(text, classStart, body) == [];
      }
    }
  }
}
