/** src/parser.ts: the language dispatch, the TypeScript/JavaScript
    extractor (two `exec` loops that push every match, without
    deduplication) and `parseCSharp`, a private copy of the C# extractor that
    nothing calls. */
module Parser {
  import opened Strings
  import opened Members
  import opened Patterns
  import opened ClassPattern
  import opened Braces
  import opened Dedup
  import opened CSharpParser

  // ------------------------------------------------------------ TypeScript

  /** The state an `exec` loop without deduplication reaches from
      `lastIndex == from`: every match is pushed. */
  function RawFrom(m: Matcher, s: string, from: nat, shape: Shape, members: seq<Member>): seq<Member>
    requires from <= |s| && Advances(m)
    decreases |s| - from
  {
    match FindNext(m, s, from)
    case None => members
    case Some(h) => RawFrom(m, s, h.index + |h.text|, shape, members + [PassMember(h, shape)])
  }

  /** Such a loop appends the members of all matches from `from` on. */
  lemma {:induction false} RawFromHits(m: Matcher, s: string, from: nat, shape: Shape, members: seq<Member>)
    requires from <= |s| && Advances(m)
    ensures RawFrom(m, s, from, shape, members) == members + PassCandidates(Hits(m, s, from), shape)
    decreases |s| - from
  {
    HitsStep(m, s, from);
    match FindNext(m, s, from)
    case None =>
      assert members + [] == members;
    case Some(h) =>
      var next := h.index + |h.text|;
      var c := PassMember(h, shape);
      var rest := PassCandidates(Hits(m, s, next), shape);
      RawFromHits(m, s, next, shape, members + [c]);
      PassCandidatesCons(h, Hits(m, s, next), shape);
      assert (members + [c]) + rest == members + ([c] + rest);
  }

  /** One TypeScript loop: every match of `m` in `text` is pushed with its
      raw text and its own offsets. */
  method RawPass(m: Matcher, kind: Kind, text: string, members0: seq<Member>)
    returns (members: seq<Member>)
    requires Advances(m)
    ensures members == members0 + PassCandidates(Hits(m, text, 0), Shape(0, kind, Raw))
  {
    ghost var shape := Shape(0, kind, Raw);
    members := members0;
    var lastIndex := 0;
    while true
      invariant lastIndex <= |text|
      invariant RawFrom(m, text, lastIndex, shape, members) == RawFrom(m, text, 0, shape, members0)
      decreases |text| - lastIndex
    {
      var hit := FindNext(m, text, lastIndex);
      if hit.None? {
        break;
      }
      var h := hit.value;
      var accessModifier := h.visibility.GetOr("public");
      var name := h.name;
      members := members + [Member(name, accessModifier, h.text, Span(h.index, h.index + |h.text|), kind)];
      lastIndex := h.index + |h.text|;
    }
    RawFromHits(m, text, 0, shape, members0);
  }

  /** What `parseTypeScript` returns: the property matches, then the method
      matches, over the whole document. */
  function TypeScriptMembers(text: string): seq<Member> {
    PassCandidates(Hits(MatcherOf(TypeScriptProperty), text, 0), Shape(0, Property, Raw)) +
    PassCandidates(Hits(MatcherOf(TypeScriptMethod), text, 0), Shape(0, Method, Raw))
  }

  /** `parseTypeScript`. */
  method ParseTypeScript(text: string) returns (members: seq<Member>)
    ensures members == TypeScriptMembers(text)
  {
    members := RawPass(MatcherOf(TypeScriptProperty), Property, text, []);
    members := RawPass(MatcherOf(TypeScriptMethod), Method, text, members);
    assert [] + PassCandidates(Hits(MatcherOf(TypeScriptProperty), text, 0), Shape(0, Property, Raw)) ==
           PassCandidates(Hits(MatcherOf(TypeScriptProperty), text, 0), Shape(0, Property, Raw));
  }

  /** What a hit of a TypeScript pattern in `text` looks like. */
  ghost predicate TypeScriptHit(text: string, h: Hit) {
    && 0 < |h.text| && h.index + |h.text| <= |text|
    && h.text == text[h.index..h.index + |h.text|]
    && IsIdentifier(h.name)
    && (h.visibility.Some? ==> h.visibility.value in TypeScriptVisibilities)
    && IsWord(h.text[0])
  }

  lemma TypeScriptHits(p: Pattern, text: string)
    requires !p.IsCSharp()
    ensures forall k :: 0 <= k < |Hits(MatcherOf(p), text, 0)| ==> TypeScriptHit(text, Hits(MatcherOf(p), text, 0)[k])
    ensures forall i, j :: 0 <= i < j < |Hits(MatcherOf(p), text, 0)| ==>
              Hits(MatcherOf(p), text, 0)[i].index < Hits(MatcherOf(p), text, 0)[j].index
  {
    var hs := Hits(MatcherOf(p), text, 0);
    HitsFacts(MatcherOf(p), text, 0);
    HitsOrdered(MatcherOf(p), text, 0);
    forall k | 0 <= k < |hs|
      ensures TypeScriptHit(text, hs[k])
    {
      HitWellFormed(p, text, hs[k]);
    }
  }

  /** What a TypeScript member built from a hit is: the hit as matched (so
      starting with a word character), a missing visibility read as
      `'public'`. */
  ghost predicate TypeScriptReported(c: Member, text: string) {
    && 0 <= c.span.start < c.span.end <= |text|
    && c.text == text[c.span.start..c.span.end]
    && IsWord(c.text[0])
    && IsIdentifier(c.name)
    && c.visibility in TypeScriptVisibilities
  }

  /** The hits of one TypeScript loop over `text`, as `TypeScriptHits`
      describes them. */
  ghost predicate TypeScriptLoopHits(text: string, hs: seq<Hit>) {
    && (forall k :: 0 <= k < |hs| ==> TypeScriptHit(text, hs[k]))
    && (forall i, j :: 0 <= i < j < |hs| ==> hs[i].index < hs[j].index)
  }

  /** The member a TypeScript loop of kind `kind` pushes for hit `h`. */
  ghost predicate RawFromHit(c: Member, h: Hit, kind: Kind, text: string) {
    && c.kind == kind && TypeScriptReported(c, text)
    && c.name == h.name && c.span.start == h.index
    && c.visibility == h.visibility.GetOr("public")
  }

  /** One TypeScript loop over any hits as the patterns produce them: one
      member of its kind per hit, in hit order. */
  lemma RawCandidatesFacts(text: string, hs: seq<Hit>, kind: Kind)
    requires TypeScriptLoopHits(text, hs)
    ensures var r := PassCandidates(hs, Shape(0, kind, Raw));
            && |r| == |hs|
            && (forall k :: 0 <= k < |r| ==> RawFromHit(r[k], hs[k], kind, text))
            && Chain(r, PassOrder)
  {
    PassCandidatesMap(hs, Shape(0, kind, Raw));
    PassCandidatesOrder(hs, Shape(0, kind, Raw));
  }

  /** How the members `r` of the two TypeScript loops relate to the property
      hits `hp` and the method hits `hm`: one member per hit, the property
      members first and only properties and methods; every member is its
      hit's raw text at its offsets, with the visibility it was written with
      or `'public'`; within each loop the members come in document order. */
  ghost predicate TypeScriptPassMembers(text: string, hp: seq<Hit>, hm: seq<Hit>, r: seq<Member>) {
    && |r| == |hp| + |hm|
    && (forall k :: 0 <= k < |r| ==> (r[k].kind == Property <==> k < |hp|) && r[k].kind != Field)
    && (forall k :: 0 <= k < |r| ==> TypeScriptReported(r[k], text))
    && (forall k :: 0 <= k < |hp| ==>
          (r[k].name == hp[k].name && r[k].span.start == hp[k].index &&
           r[k].visibility == hp[k].visibility.GetOr("public")))
    && (forall k :: 0 <= k < |hm| ==>
          (r[|hp| + k].name == hm[k].name && r[|hp| + k].span.start == hm[k].index &&
           r[|hp| + k].visibility == hm[k].visibility.GetOr("public")))
    && Chain(r, PassOrder)
  }

  /** The property members `a` followed by the method members `b`, each
      list one member per hit: kinds, reports and hit fields by position. */
  lemma RawConcat(text: string, hp: seq<Hit>, hm: seq<Hit>, a: seq<Member>, b: seq<Member>)
    requires |a| == |hp| && |b| == |hm|
    requires forall k :: 0 <= k < |a| ==> RawFromHit(a[k], hp[k], Property, text)
    requires forall k :: 0 <= k < |b| ==> RawFromHit(b[k], hm[k], Method, text)
    ensures forall k :: 0 <= k < |a + b| ==>
              ((a + b)[k].kind == Property <==> k < |hp|) && (a + b)[k].kind != Field
    ensures forall k :: 0 <= k < |a + b| ==> TypeScriptReported((a + b)[k], text)
    ensures forall k :: 0 <= k < |hp| ==>
              ((a + b)[k].name == hp[k].name && (a + b)[k].span.start == hp[k].index &&
               (a + b)[k].visibility == hp[k].visibility.GetOr("public"))
    ensures forall k :: 0 <= k < |hm| ==>
              ((a + b)[|hp| + k].name == hm[k].name && (a + b)[|hp| + k].span.start == hm[k].index &&
               (a + b)[|hp| + k].visibility == hm[k].visibility.GetOr("public"))
  {
    var r := a + b;
    forall k | 0 <= k < |r|
      ensures (r[k].kind == Property <==> k < |hp|) && r[k].kind != Field
      ensures TypeScriptReported(r[k], text)
    {
      if k < |a| {
        assert r[k] == a[k] && RawFromHit(a[k], hp[k], Property, text);
      } else {
        assert r[k] == b[k - |a|] && RawFromHit(b[k - |a|], hm[k - |a|], Method, text);
      }
    }
    forall k | 0 <= k < |hp|
      ensures r[k].name == hp[k].name && r[k].span.start == hp[k].index
      ensures r[k].visibility == hp[k].visibility.GetOr("public")
    {
      assert r[k] == a[k] && RawFromHit(a[k], hp[k], Property, text);
    }
    forall k | 0 <= k < |hm|
      ensures r[|hp| + k].name == hm[k].name && r[|hp| + k].span.start == hm[k].index
      ensures r[|hp| + k].visibility == hm[k].visibility.GetOr("public")
    {
      assert r[|hp| + k] == b[k] && RawFromHit(b[k], hm[k], Method, text);
    }
  }

  /** The two TypeScript loops one after the other. */
  lemma TypeScriptPassesFacts(text: string, hp: seq<Hit>, hm: seq<Hit>)
    requires TypeScriptLoopHits(text, hp) && TypeScriptLoopHits(text, hm)
    ensures TypeScriptPassMembers(text, hp, hm,
              PassCandidates(hp, Shape(0, Property, Raw)) + PassCandidates(hm, Shape(0, Method, Raw)))
  {
    var a := PassCandidates(hp, Shape(0, Property, Raw));
    var b := PassCandidates(hm, Shape(0, Method, Raw));
    RawCandidatesFacts(text, hp, Property);
    RawCandidatesFacts(text, hm, Method);
    RawConcat(text, hp, hm, a, b);
    ChainConcat(a, b, PassOrder);
  }

  /** What `parseTypeScript` promises: its members are those of the property
      loop followed by those of the method loop, related to the matches of
      the two patterns over the whole document as `TypeScriptPassMembers`
      says; there is no deduplication. */
  lemma TypeScriptMembersFacts(text: string)
    ensures TypeScriptPassMembers(text, Hits(MatcherOf(TypeScriptProperty), text, 0),
                                  Hits(MatcherOf(TypeScriptMethod), text, 0), TypeScriptMembers(text))
  {
    var hp := Hits(MatcherOf(TypeScriptProperty), text, 0);
    var hm := Hits(MatcherOf(TypeScriptMethod), text, 0);
    TypeScriptHits(TypeScriptProperty, text);
    TypeScriptHits(TypeScriptMethod, text);
    assert TypeScriptLoopHits(text, hp) && TypeScriptLoopHits(text, hm);
    TypeScriptPassesFacts(text, hp, hm);
  }

  // ---------------------------------------------------- the unused C# copy

  /** The candidates of `parseCSharp`, in pass order: the field pass as in the
      C# extractor; the property pass with the text re-formatted line by line
      and the range left relative to the class body; the method pass with the
      one-level-nesting pattern, trimmed text, no constructor check, no body
      extension, and the range also relative to the class body. */
  function UnusedCandidates(classStart: nat, body: string): seq<Member> {
    PassCandidates(Hits(MatcherOf(CSharpField), body, 0), Shape(classStart, Field, Trimmed)) +
    PassCandidates(Hits(MatcherOf(CSharpProperty), body, 0), Shape(0, Property, ByLine)) +
    PassCandidates(Hits(MatcherOf(CSharpNestedMethod), body, 0), Shape(0, Method, Trimmed))
  }

  /** What `parseCSharp` would return. */
  function UnusedCSharpMembers(text: string): seq<Member> {
    match ClassSignature(text, 0)
    case None => []
    case Some(cm) =>
      var classStart := cm.end;
      KeepFirst(UnusedCandidates(classStart, text[classStart..ClassEnd(text, classStart)]), {})
  }

  /** `parseCSharp`: the same class signature and brace scan as the C#
      extractor, then the field, property and method passes, in that order,
      sharing one set of seen names. Its field pass reads the visibility
      group without a `'public'` fallback; the group always takes part in a
      C# match, so the fallback of `PassMember` never applies. */
  method ParseCSharp(text: string) returns (members: seq<Member>)
    ensures members == UnusedCSharpMembers(text)
  {
    members := [];
    var seenMembers: set<string> := {};
    var classMatch := ClassSignature(text, 0);
    if classMatch.None? {
      return;
    }
    var classStart := classMatch.value.end;
    var classEnd := FindClassEnd(text, classStart);
    var textToParse := text[classStart..classEnd];
    ghost var fields := PassCandidates(Hits(MatcherOf(CSharpField), textToParse, 0), Shape(classStart, Field, Trimmed));
    ghost var properties := PassCandidates(Hits(MatcherOf(CSharpProperty), textToParse, 0), Shape(0, Property, ByLine));
    ghost var methods := PassCandidates(Hits(MatcherOf(CSharpNestedMethod), textToParse, 0), Shape(0, Method, Trimmed));

    members, seenMembers := SimplePass(MatcherOf(CSharpField), Shape(classStart, Field, Trimmed), textToParse,
                                       members, seenMembers);
    members, seenMembers := SimplePass(MatcherOf(CSharpProperty), Shape(0, Property, ByLine), textToParse,
                                       members, seenMembers);
    members, seenMembers := SimplePass(MatcherOf(CSharpNestedMethod), Shape(0, Method, Trimmed), textToParse,
                                       members, seenMembers);

    AccumulateAppend(fields, properties, [], {});
    AccumulateAppend(fields + properties, methods, [], {});
    AccumulateKeepFirst(fields + properties + methods, [], {});
  }

  /** A property match starts with its visibility keyword, so its first line
      has no indentation, and the property text of `parseCSharp` is the
      match's lines, each trimmed, in order. */
  lemma FormatLinesOfHit(t: string)
    requires t != [] && !IsSpace(t[0])
    ensures FormatLines(t) == Join(TrimAll(Split(t, '\n')), "\n")
    ensures Split(FormatLines(t), '\n') == TrimAll(Split(t, '\n'))
  {
    var lines := Split(t, '\n');
    SplitFirst(t, '\n');
    LeadingSpaceFacts(lines[0]);
    assert LeadingSpace(lines[0]) == "";
    assert "\n" + LeadingSpace(lines[0]) == "\n";
    var trimmed := TrimAll(lines);
    forall k | 0 <= k < |trimmed|
      ensures '\n' !in trimmed[k]
    {
      TrimKeeps(lines[k], '\n');
    }
    SplitJoin(trimmed, '\n');
  }

  /** What every member `parseCSharp` reports satisfies: the visibility is
      one of the four keywords and the name an identifier; a field is a
      reported member of the class body as in the C# extractor; a property or
      method has a range relative to the class body, its text is that part of
      the body trimmed (a method) or trimmed line by line (a property). */
  ghost predicate UnusedReported(c: Member, text: string, classStart: nat, classEnd: nat)
    requires classStart <= classEnd <= |text|
  {
    var body := text[classStart..classEnd];
    && c.visibility in CSharpVisibilities
    && IsIdentifier(c.name)
    && (c.kind == Field ==> Reported(c, text, classStart, classEnd))
    && (c.kind != Field ==>
          && 0 <= c.span.start < c.span.end <= |body|
          && (c.kind == Method ==> c.text == Trim(body[c.span.start..c.span.end]))
          && (c.kind == Property ==>
                Split(c.text, '\n') == TrimAll(Split(body[c.span.start..c.span.end], '\n'))))
  }

  lemma UnusedPropertyReported(text: string, classStart: nat, classEnd: nat, h: Hit)
    requires classStart <= classEnd <= |text| && CSharpHit(text[classStart..classEnd], h)
    ensures UnusedReported(PassMember(h, Shape(0, Property, ByLine)), text, classStart, classEnd)
  {
    var c := PassMember(h, Shape(0, Property, ByLine));
    assert text[classStart..classEnd][c.span.start..c.span.end] == h.text;
    var v := h.visibility.value;
    KeywordStart(v);
    assert h.text[0] == h.text[0..|v|][0] == v[0];
    FormatLinesOfHit(h.text);
  }

  lemma UnusedMethodReported(text: string, classStart: nat, classEnd: nat, h: Hit)
    requires classStart <= classEnd <= |text| && CSharpHit(text[classStart..classEnd], h)
    ensures UnusedReported(PassMember(h, Shape(0, Method, Trimmed)), text, classStart, classEnd)
  {
    var c := PassMember(h, Shape(0, Method, Trimmed));
    assert text[classStart..classEnd][c.span.start..c.span.end] == h.text;
  }

  lemma UnusedPassReported(text: string, classStart: nat, classEnd: nat, hs: seq<Hit>, shape: Shape)
    requires classStart <= classEnd <= |text|
    requires ExecHits(text[classStart..classEnd], hs)
    requires shape == Shape(classStart, Field, Trimmed) || shape == Shape(0, Property, ByLine) ||
             shape == Shape(0, Method, Trimmed)
    ensures forall c :: c in PassCandidates(hs, shape) ==> UnusedReported(c, text, classStart, classEnd)
  {
    PassCandidatesMap(hs, shape);
    var cs := PassCandidates(hs, shape);
    forall c | c in cs
      ensures UnusedReported(c, text, classStart, classEnd)
    {
      var k :| 0 <= k < |cs| && cs[k] == c;
      if shape.kind == Field {
        PassMemberReported(text, classStart, classEnd, hs[k], Field);
      } else if shape.kind == Property {
        UnusedPropertyReported(text, classStart, classEnd, hs[k]);
      } else {
        UnusedMethodReported(text, classStart, classEnd, hs[k]);
      }
    }
  }

  /** All candidates of `parseCSharp` are as `UnusedReported` describes, in
      pass order. */
  lemma UnusedCandidatesFacts(text: string, classStart: nat, classEnd: nat)
    requires classStart <= classEnd <= |text|
    ensures forall c :: c in UnusedCandidates(classStart, text[classStart..classEnd]) ==>
              UnusedReported(c, text, classStart, classEnd)
    ensures Chain(UnusedCandidates(classStart, text[classStart..classEnd]), PassOrder)
  {
    var body := text[classStart..classEnd];
    var fh := Hits(MatcherOf(CSharpField), body, 0);
    var ph := Hits(MatcherOf(CSharpProperty), body, 0);
    var mh := Hits(MatcherOf(CSharpNestedMethod), body, 0);
    HitsAreExecHits(CSharpField, body);
    HitsAreExecHits(CSharpProperty, body);
    HitsAreExecHits(CSharpNestedMethod, body);
    var fs := Shape(classStart, Field, Trimmed);
    var ps := Shape(0, Property, ByLine);
    var ms := Shape(0, Method, Trimmed);
    var f := PassCandidates(fh, fs);
    var p := PassCandidates(ph, ps);
    var m := PassCandidates(mh, ms);
    PassCandidatesOrder(fh, fs);
    PassCandidatesOrder(ph, ps);
    PassCandidatesOrder(mh, ms);
    UnusedPassReported(text, classStart, classEnd, fh, fs);
    UnusedPassReported(text, classStart, classEnd, ph, ps);
    UnusedPassReported(text, classStart, classEnd, mh, ms);
    ChainConcat(f, p, PassOrder);
    ChainConcat(f + p, m, PassOrder);
    assert UnusedCandidates(classStart, body) == f + p + m;
  }

  /** What `parseCSharp` promises about a document with a class: one shared
      set of seen names across the three passes, so every name is reported
      once, by the first candidate that has it (fields before properties
      before methods); every candidate name is reported; the members come in
      pass order; and each is as `UnusedReported` describes. */
  lemma UnusedCSharpFacts(text: string)
    requires ClassSignature(text, 0).Some?
    ensures var classStart := ClassSignature(text, 0).value.end;
            var classEnd := ClassEnd(text, classStart);
            var cands := UnusedCandidates(classStart, text[classStart..classEnd]);
            var r := UnusedCSharpMembers(text);
            && classStart <= classEnd <= |text|
            && NamesUnique(r)
            && Names(r) == Names(cands)
            && (forall k :: 0 <= k < |r| ==>
                  FindIndex(cands, r[k].name) >= 0 && cands[FindIndex(cands, r[k].name)] == r[k])
            && Chain(r, PassOrder)
            && (forall k :: 0 <= k < |r| ==> UnusedReported(r[k], text, classStart, classEnd))
  {
    var classStart := ClassSignature(text, 0).value.end;
    ClassEndFacts(text, classStart);
    var classEnd := ClassEnd(text, classStart);
    var cands := UnusedCandidates(classStart, text[classStart..classEnd]);
    UnusedCandidatesFacts(text, classStart, classEnd);
    KeepFirstFacts(cands, {});
    KeepFirstNames(cands, {});
    KeepFirstIsFirst(cands, {});
    KeepFirstChain(cands, {}, PassOrder);
  }

  /** Like the C# extractor, `parseCSharp` reports nothing without a class
      signature or when the class braces never balance. */
  lemma UnusedCSharpEmpty(text: string)
    ensures ClassSignature(text, 0).None? ==> UnusedCSharpMembers(text) == []
    ensures ClassSignature(text, 0).Some? &&
            MatchingBrace(text, ClassSignature(text, 0).value.end, ClassSignature(text, 0).value.end).None? ==>
              UnusedCSharpMembers(text) == []
  {
    if ClassSignature(text, 0).Some? {
      var classStart := ClassSignature(text, 0).value.end;
      ClassEndFacts(text, classStart);
      if MatchingBrace(text, classStart, classStart).None? {
        var body := text[classStart..ClassEnd(text, classStart)];
        assert body == "";
        NoHitsInEmpty(CSharpField);
        NoHitsInEmpty(CSharpProperty);
        NoHitsInEmpty(CSharpNestedMethod);
        assert UnusedCandidates(classStart, body) == [];
      }
    }
  }

  // -------------------------------------------------------------- dispatch

  /** What `parseDocument` returns for a document of language `language`. */
  function DocumentMembers(language: string, text: string): seq<Member> {
    if language == "typescript" || language == "javascript" then TypeScriptMembers(text)
    else if language == "csharp" then CSharpMembers(text)
    else []
  }

  /** `parseDocument`: the `switch` on the language id. The warning shown for
      an unsupported language is not modelled. */
  method ParseDocument(language: string, text: string) returns (members: seq<Member>)
    ensures members == DocumentMembers(language, text)
  {
    match language
    case "typescript" => members := ParseTypeScript(text);
    case "javascript" => members := ParseTypeScript(text);
    case "csharp" => members := ParseWithRegex(text);
    case _ => members := [];
  }

  /** The dispatch: an unsupported language gives no members; C# documents
      get the deduplicated, constructor-free members of `parseWithRegex`, in
      pass order; TypeScript and JavaScript documents get one member per
      match, never a field. */
  lemma DocumentMembersFacts(language: string, text: string)
    ensures language != "typescript" && language != "javascript" && language != "csharp" ==>
              DocumentMembers(language, text) == []
    ensures language == "csharp" ==>
              var r := DocumentMembers(language, text);
              && r == CSharpMembers(text)
              && NamesUnique(r) && Chain(r, PassOrder)
              && (forall k :: 0 <= k < |r| ==> r[k].kind == Method ==> r[k].name != GetClassName(text))
    ensures language == "typescript" || language == "javascript" ==>
              var r := DocumentMembers(language, text);
              && r == TypeScriptMembers(text)
              && |r| == |Hits(MatcherOf(TypeScriptProperty), text, 0)| + |Hits(MatcherOf(TypeScriptMethod), text, 0)|
              && (forall k :: 0 <= k < |r| ==> r[k].kind != Field)
  {
    if language == "csharp" {
      CSharpMembersEmpty(text);
      if ClassSignature(text, 0).Some? {
        CSharpMembersFacts(text);
      }
    }
    if language == "typescript" || language == "javascript" {
      TypeScriptMembersFacts(text);
    }
  }
}
