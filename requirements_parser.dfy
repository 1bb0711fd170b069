/** The requirements analyser: keyword spotting over a free-text request.
    It picks the main requirement line, the sentences that state functionalities and
    the technology constraints (a window of text around each technology keyword), and
    renders the result as a Markdown template. */
module RequirementsParser {
  import opened Values
  import opened Text
  import opened Sequences

  /** Verbs that mark the line holding the main requirement. */
  const ActionVerbs: seq<string> := [
    "crear", "agregar", "modificar", "eliminar", "implementar",
    "desarrollar", "construir", "hacer", "necesito", "quiero",
    "create", "add", "modify", "delete", "implement", "develop", "build", "need", "want"
  ]

  /** Words that mark a sentence as stating a functionality. */
  const FunctionalityKeywords: seq<string> := [
    "debe", "puede", "necesita", "incluir", "tener",
    "must", "should", "can", "needs", "include", "have"
  ]

  /** Words that mark a technology constraint; "framework" is listed twice. */
  const TechKeywords: seq<string> := [
    "usar", "framework", "librería", "tecnología", "use", "framework", "library"
  ]

  /** The keys of the constraints dictionary, in insertion order. */
  const CategoryNames: seq<string> := [
    "tecnologicas", "diseno", "rendimiento", "seguridad", "compatibilidad"
  ]

  /** One entry of the constraints dictionary: a category and its list of findings. */
  datatype Category = Category(name: string, items: seq<string>)

  /** The analysis dictionary. `principal` is absent (None) when the dictionary has no
      `requirement_principal` key; the list-valued keys hold their lists. */
  datatype Analysis = Analysis(
    principal: Option<string>,      // 'requirement_principal'
    functionalities: seq<string>,   // 'funcionalidades'
    constraints: seq<Category>,     // 'restricciones', an ordered dictionary
    dependencies: seq<string>,      // 'dependencias'
    acceptanceCriteria: seq<string>,// 'criterios_aceptacion'
    ambiguities: seq<string>        // 'ambiguedades'
  )

  /** Some keyword of `kws` occurs in `s`. */
  predicate MentionsAny(s: string, kws: seq<string>) {
    exists k | 0 <= k < |kws| :: Contains(s, kws[k])
  }

  // ---------------------------------------------------------------------------
  // extract_main_requirement

  /** The lines of the lowercased message (`message.lower().split('\n')`). */
  function MessageLines(message: string): (lines: seq<string>)
    ensures |lines| >= 1
    ensures forall i :: 0 <= i < |lines| ==> '\n' !in lines[i] && IsLower(lines[i])
  {
    var lower := Lower(message);
    LowerIsLower(message);
    Split(lower, '\n')
  }

  /** The index of the first line that mentions a keyword, if any. */
  function FirstMention(lines: seq<string>, kws: seq<string>): (r: Option<nat>)
    ensures r.None? <==> forall i :: 0 <= i < |lines| ==> !MentionsAny(lines[i], kws)
    ensures r.Some? ==> r.value < |lines| && MentionsAny(lines[r.value], kws)
    ensures r.Some? ==> forall j :: 0 <= j < r.value ==> !MentionsAny(lines[j], kws)
  {
    if lines == [] then None
    else if MentionsAny(lines[0], kws) then Some(0)
    else
      match FirstMention(lines[1..], kws)
      case None => None
      case Some(i) => Some(i + 1)
  }

  /** What `extract_main_requirement` returns: the stripped first lowercased line that
      contains an action verb, or else the stripped first line. */
  function MainRequirementOf(message: string): (r: string)
    ensures '\n' !in r && IsLower(r)
    ensures var lines := MessageLines(message);
      (exists i :: 0 <= i < |lines| && MentionsAny(lines[i], ActionVerbs)) ==>
        exists i :: 0 <= i < |lines| && MentionsAny(lines[i], ActionVerbs) && r == Strip(lines[i])
          && forall j :: 0 <= j < i ==> !MentionsAny(lines[j], ActionVerbs)
    ensures var lines := MessageLines(message);
      (forall i :: 0 <= i < |lines| ==> !MentionsAny(lines[i], ActionVerbs)) ==> r == Strip(lines[0])
  {
    var lines := MessageLines(message);
    match FirstMention(lines, ActionVerbs)
    case Some(i) => StripBlock(lines[i]); Strip(lines[i])
    case None => StripBlock(lines[0]); Strip(lines[0])
  }

  lemma ActionVerbsAreWords()
    ensures forall k :: 0 <= k < |ActionVerbs| ==> IsWord(ActionVerbs[k])
  {
  }

  /** A lowercase line keeps, once stripped, every keyword it contains. */
  lemma StripKeepsKeyword(line: string, w: string)
    requires IsLower(line) && IsWord(w) && Contains(line, w)
    ensures Contains(Strip(line), w)
  {
    LowerOfLower(line);
    StripKeepsWord(line, w);
    StripBlock(line);
    assert IsLower(Strip(line));
    LowerOfLower(Strip(line));
  }

  /** Lowercasing a lowercase string changes nothing. */
  lemma LowerOfLower(s: string)
    requires IsLower(s)
    ensures Lower(s) == s
  {
    forall i | 0 <= i < |s| ensures Lower(s)[i] == s[i] {
      assert s[i] in s;
    }
  }

  /** A keyword found in the stripped line was already in the line. */
  lemma StripAddsNothing(line: string, w: string)
    requires Contains(Strip(line), w)
    ensures Contains(line, w)
  {
    var r, a := Strip(line), StripStart(line);
    StripBlock(line);
    var p :| OccursAt(r, w, p);
    OccursInBlock(line, a, a + |r|, w, p);
  }

  /** The main requirement mentions an action verb exactly when some line of the
      message does; when a line matched, the result holds every verb that line holds. */
  lemma MainRequirementKeepsVerbs(message: string)
    ensures MentionsAny(MainRequirementOf(message), ActionVerbs)
        <==> exists i :: 0 <= i < |MessageLines(message)| && MentionsAny(MessageLines(message)[i], ActionVerbs)
    ensures var lines := MessageLines(message);
      FirstMention(lines, ActionVerbs).Some? ==>
        forall k :: 0 <= k < |ActionVerbs| ==>
          (Contains(MainRequirementOf(message), ActionVerbs[k]) <==> Contains(lines[FirstMention(lines, ActionVerbs).value], ActionVerbs[k]))
  {
    var lines := MessageLines(message);
    var r := MainRequirementOf(message);
    ActionVerbsAreWords();
    match FirstMention(lines, ActionVerbs)
    case Some(i) =>
      forall k | 0 <= k < |ActionVerbs|
        ensures Contains(r, ActionVerbs[k]) <==> Contains(lines[i], ActionVerbs[k])
      {
        if Contains(lines[i], ActionVerbs[k]) { StripKeepsKeyword(lines[i], ActionVerbs[k]); }
        if Contains(r, ActionVerbs[k]) { StripAddsNothing(lines[i], ActionVerbs[k]); }
      }
    case None =>
      forall k | 0 <= k < |ActionVerbs| ensures !Contains(r, ActionVerbs[k]) {
        if Contains(r, ActionVerbs[k]) {
          StripAddsNothing(lines[0], ActionVerbs[k]);
          assert MentionsAny(lines[0], ActionVerbs);
        }
      }
  }

  /** The inner loops of extract_main_requirement and identify_functionalities: tries
      the keywords in order and stops at the first one that occurs in `s`. */
  method ScanKeywords(s: string, kws: seq<string>) returns (found: bool)
    ensures found <==> MentionsAny(s, kws)
  {
    found := false;
    var k := 0;
    while k < |kws|
      invariant 0 <= k <= |kws|
      invariant !found
      invariant forall m :: 0 <= m < k ==> !Contains(s, kws[m])
    {
      if Contains(s, kws[k]) {
        found := true;
        break;
      }
      k := k + 1;
    }
  }

  /** extract_main_requirement: scans the lines in order and, for each line, the verbs in
      order, stopping at the first line that contains one. */
  method ExtractMainRequirement(message: string) returns (mainRequirement: string)
    ensures mainRequirement == MainRequirementOf(message)
  {
    var lines := Split(Lower(message), '\n');
    assert lines == MessageLines(message);
    var mainLine: Option<string> := None;
    var i := 0;
    while i < |lines|
      invariant 0 <= i <= |lines|
      invariant mainLine == None
      invariant forall j :: 0 <= j < i ==> !MentionsAny(lines[j], ActionVerbs)
    {
      var line := lines[i];
      var found := ScanKeywords(line, ActionVerbs);
      if found {
        mainLine := Some(Strip(line));
        MatchedLineIsChosen(message, i);
      }
      if mainLine.Some? && mainLine.value != [] {
        break;
      }
      i := i + 1;
    }
    if mainLine.Some? && mainLine.value != [] {
      mainRequirement := mainLine.value;
    } else {
      NoLineMatches(message);
      mainRequirement := Strip(lines[0]);
    }
  }

  /** The first line holding a verb, stripped, is not empty and is the main requirement. */
  lemma MatchedLineIsChosen(message: string, i: nat)
    requires i < |MessageLines(message)| && MentionsAny(MessageLines(message)[i], ActionVerbs)
    requires forall j :: 0 <= j < i ==> !MentionsAny(MessageLines(message)[j], ActionVerbs)
    ensures Strip(MessageLines(message)[i]) != []
    ensures MainRequirementOf(message) == Strip(MessageLines(message)[i])
  {
    var lines := MessageLines(message);
    var k :| 0 <= k < |ActionVerbs| && Contains(lines[i], ActionVerbs[k]);
    ActionVerbsAreWords();
    StripKeepsKeyword(lines[i], ActionVerbs[k]);
    var r := MainRequirementOf(message);
    var i' :| 0 <= i' < |lines| && MentionsAny(lines[i'], ActionVerbs) && r == Strip(lines[i'])
      && forall j :: 0 <= j < i' ==> !MentionsAny(lines[j], ActionVerbs);
    assert i' == i;
  }

  /** When no line holds a verb, the main requirement is the stripped first line. */
  lemma NoLineMatches(message: string)
    requires forall j :: 0 <= j < |MessageLines(message)| ==> !MentionsAny(MessageLines(message)[j], ActionVerbs)
    ensures MainRequirementOf(message) == Strip(MessageLines(message)[0])
  {
  }

  // ---------------------------------------------------------------------------
  // identify_functionalities

  /** The lowercase form of the sentence contains a functionality keyword. */
  predicate IsFunctionality(sentence: string) {
    MentionsAny(Lower(sentence), FunctionalityKeywords)
  }

  function StripAll(xs: seq<string>): seq<string> {
    seq(|xs|, i requires 0 <= i < |xs| => Strip(xs[i]))
  }

  /** What `identify_functionalities` returns: the stripped `.`-separated sentences that
      mention a functionality keyword, in their original order. */
  function FunctionalitiesOf(text: string): (r: seq<string>)
    ensures |r| <= |Split(text, '.')|
    ensures forall k :: 0 <= k < |r| ==> '.' !in r[k]
  {
    var sentences := Split(text, '.');
    var kept := Filter(sentences, IsFunctionality);
    FilterAtKeptIndices(sentences, IsFunctionality);
    assert forall k :: 0 <= k < |kept| ==> '.' !in Strip(kept[k]) by {
      forall k | 0 <= k < |kept| ensures '.' !in Strip(kept[k]) {
        StripBlock(kept[k]);
      }
    }
    StripAll(kept)
  }

  /** Each selected sentence appears once, in order: the k-th functionality is the
      stripped sentence at the k-th position whose sentence mentions a keyword (and
      KeptIndices lists exactly those positions, increasing). */
  lemma {:induction false} FunctionalitiesInOrder(text: string)
    ensures var sentences := Split(text, '.');
      var idx := KeptIndices(sentences, IsFunctionality);
      |FunctionalitiesOf(text)| == |idx|
      && forall k :: 0 <= k < |idx| ==> FunctionalitiesOf(text)[k] == Strip(sentences[idx[k]])
  {
    FilterAtKeptIndices(Split(text, '.'), IsFunctionality);
  }

  /** Taking one more sentence into account appends its stripped form exactly when it
      states a functionality. */
  lemma FunctionalitiesStep(sentences: seq<string>, i: nat)
    requires i < |sentences|
    ensures StripAll(Filter(sentences[..i + 1], IsFunctionality))
         == StripAll(Filter(sentences[..i], IsFunctionality))
            + (if IsFunctionality(sentences[i]) then [Strip(sentences[i])] else [])
  {
    assert sentences[..i + 1] == sentences[..i] + [sentences[i]];
    FilterSnoc(sentences[..i], sentences[i], IsFunctionality);
  }

  /** identify_functionalities: for each sentence, tries the keywords in order and
      appends the stripped sentence at the first one found. */
  method IdentifyFunctionalities(text: string) returns (functionalities: seq<string>)
    ensures functionalities == FunctionalitiesOf(text)
  {
    functionalities := [];
    var sentences := Split(text, '.');
    var i := 0;
    while i < |sentences|
      invariant 0 <= i <= |sentences|
      invariant functionalities == StripAll(Filter(sentences[..i], IsFunctionality))
    {
      var sentence := sentences[i];
      var sentenceLower := Lower(sentence);
      var found := ScanKeywords(sentenceLower, FunctionalityKeywords);
      if found {
        functionalities := functionalities + [Strip(sentence)];
      }
      FunctionalitiesStep(sentences, i);
      i := i + 1;
    }
    assert sentences[..i] == sentences;
  }

  // ---------------------------------------------------------------------------
  // identify_constraints

  function Max(a: int, b: int): int { if a < b then b else a }
  function Min(a: int, b: int): int { if a < b then a else b }

  /** The text around the first occurrence of `keyword` in the lowercased text: from 50
      characters before it to 100 characters after its start, clipped to the text and
      stripped. */
  function ContextAround(text: string, keyword: string): (context: string)
    ensures |context| <= 150
  {
    var idx := Find(Lower(text), keyword);
    Strip(text[Max(0, idx - 50)..Min(|text|, idx + 100)])
  }

  /** The window identify_constraints cuts around the position `find` reports, once
      stripped, is the keyword's context. */
  lemma ContextWindow(text: string, keyword: string, idx: int)
    requires idx == Find(Lower(text), keyword)
    ensures 0 <= Max(0, idx - 50) <= Min(|text|, idx + 100) <= |text|
    ensures Strip(text[Max(0, idx - 50)..Min(|text|, idx + 100)]) == ContextAround(text, keyword)
  {
  }

  /** A keyword of at most 100 characters that occurs in the text is inside its context
      (compared in lowercase). */
  lemma ContextKeepsKeyword(text: string, keyword: string)
    requires IsWord(keyword) && |keyword| <= 100
    requires Contains(Lower(text), keyword)
    ensures Contains(Lower(ContextAround(text, keyword)), keyword)
  {
    var idx := Find(Lower(text), keyword);
    var lo, hi := Max(0, idx - 50), Min(|text|, idx + 100);
    assert OccursAt(Lower(text), keyword, idx);
    assert lo <= idx && idx + |keyword| <= hi;
    WindowKeepsKeyword(text, keyword, idx, lo, hi);
    StripKeepsWord(text[lo..hi], keyword);
  }

  /** A block of the text that covers an occurrence keeps it, in lowercase. */
  lemma WindowKeepsKeyword(text: string, keyword: string, idx: int, lo: int, hi: int)
    requires OccursAt(Lower(text), keyword, idx)
    requires 0 <= lo <= idx && idx + |keyword| <= hi <= |text|
    ensures OccursAt(Lower(text[lo..hi]), keyword, idx - lo)
  {
    LowerSlice(text, lo, hi);
    assert Lower(text[lo..hi])[idx - lo..idx - lo + |keyword|] == Lower(text)[idx..idx + |keyword|];
  }

  /** The keyword test as a function value: does `kw` occur in the lowercased text? */
  function OccursIn(text: string): string -> bool {
    (kw: string) => Contains(Lower(text), kw)
  }

  /** One context per element of `keywords` that occurs in the text, in list order. */
  function ContextsFor(text: string, keywords: seq<string>): (r: seq<string>)
    ensures |r| <= |keywords|
    ensures forall k :: 0 <= k < |r| ==> |r[k]| <= 150
  {
    var present := Filter(keywords, OccursIn(text));
    seq(|present|, k requires 0 <= k < |present| => ContextAround(text, present[k]))
  }

  /** Going one keyword further adds that keyword's context exactly when it occurs. */
  lemma ContextsForPrefix(text: string, keywords: seq<string>, k: nat)
    requires k < |keywords|
    ensures Contains(Lower(text), keywords[k]) ==>
      ContextsFor(text, keywords[..k + 1]) == ContextsFor(text, keywords[..k]) + [ContextAround(text, keywords[k])]
    ensures !Contains(Lower(text), keywords[k]) ==>
      ContextsFor(text, keywords[..k + 1]) == ContextsFor(text, keywords[..k])
  {
    assert keywords[..k + 1] == keywords[..k] + [keywords[k]];
    FilterSnoc(keywords[..k], keywords[k], OccursIn(text));
    if !Contains(Lower(text), keywords[k]) {
      assert Filter(keywords[..k + 1], OccursIn(text)) == Filter(keywords[..k], OccursIn(text));
    }
  }

  lemma TechKeywordsAreShortWords()
    ensures forall k :: 0 <= k < |TechKeywords| ==> IsWord(TechKeywords[k]) && |TechKeywords[k]| <= 100
  {
  }

  /** The technology findings: one entry for each element of the keyword list that
      occurs in the text, in list order, each the context of that keyword and, in
      lowercase, containing it. */
  lemma {:induction false} TechnologyFindings(text: string)
    ensures var idx := KeptIndices(TechKeywords, OccursIn(text));
      var found := ContextsFor(text, TechKeywords);
      |found| == |idx|
      && forall k :: 0 <= k < |idx| ==>
           found[k] == ContextAround(text, TechKeywords[idx[k]])
           && Contains(Lower(found[k]), TechKeywords[idx[k]])
  {
    var idx := KeptIndices(TechKeywords, OccursIn(text));
    FilterAtKeptIndices(TechKeywords, OccursIn(text));
    TechKeywordsAreShortWords();
    forall k | 0 <= k < |idx|
      ensures Contains(Lower(ContextAround(text, TechKeywords[idx[k]])), TechKeywords[idx[k]])
    {
      assert OccursIn(text)(TechKeywords[idx[k]]);
      ContextKeepsKeyword(text, TechKeywords[idx[k]]);
    }
  }

  /** A keyword listed at two positions gets its context twice when it occurs. */
  lemma RepeatedKeywordFoundTwice(text: string, keywords: seq<string>, i: nat, j: nat)
    requires i < j < |keywords| && keywords[i] == keywords[j]
    requires Contains(Lower(text), keywords[i])
    ensures var found := ContextsFor(text, keywords);
      exists k, l :: 0 <= k < l < |found| && found[k] == found[l] == ContextAround(text, keywords[i])
  {
    var idx := KeptIndices(keywords, OccursIn(text));
    var found := ContextsFor(text, keywords);
    FilterAtKeptIndices(keywords, OccursIn(text));
    assert OccursIn(text)(keywords[i]) && OccursIn(text)(keywords[j]);
    var k :| 0 <= k < |idx| && idx[k] == i;
    var l :| 0 <= l < |idx| && idx[l] == j;
    assert k < l;
    assert found[k] == ContextAround(text, keywords[i]);
    assert found[l] == ContextAround(text, keywords[j]);
  }

  /** "framework" is listed twice, so a text that mentions it gets the same context
      twice among its technology findings. */
  lemma FrameworkFoundTwice(text: string)
    requires Contains(Lower(text), "framework")
    ensures var found := ContextsFor(text, TechKeywords);
      exists k, l :: 0 <= k < l < |found| && found[k] == found[l] == ContextAround(text, "framework")
  {
    assert TechKeywords[1] == "framework" && TechKeywords[5] == "framework";
    RepeatedKeywordFoundTwice(text, TechKeywords, 1, 5);
  }

  /** What `identify_constraints` returns: the five categories in their fixed order,
      only the technology one filled. */
  function ConstraintsOf(text: string): (r: seq<Category>)
    ensures |r| == |CategoryNames| && forall i :: 0 <= i < |r| ==> r[i].name == CategoryNames[i]
    ensures forall i :: 1 <= i < |r| ==> r[i].items == []
    ensures |r[0].items| <= |TechKeywords| && forall k :: 0 <= k < |r[0].items| ==> |r[0].items[k]| <= 150
  {
    WithTechnology(ContextsFor(text, TechKeywords))
  }

  /** The five categories with `items` as the technology findings and the other four empty. */
  function WithTechnology(items: seq<string>): seq<Category> {
    [Category("tecnologicas", items), Category("diseno", []), Category("rendimiento", []),
     Category("seguridad", []), Category("compatibilidad", [])]
  }

  /** identify_constraints: starts from the five empty categories and appends, for each
      technology keyword found, its context to the technology category. */
  method IdentifyConstraints(text: string) returns (constraints: seq<Category>)
    ensures constraints == ConstraintsOf(text)
  {
    constraints := WithTechnology([]);
    var textLower := Lower(text);
    var k := 0;
    while k < |TechKeywords|
      invariant 0 <= k <= |TechKeywords|
      invariant constraints == WithTechnology(ContextsFor(text, TechKeywords[..k]))
    {
      var keyword := TechKeywords[k];
      ContextsForPrefix(text, TechKeywords, k);
      if Contains(textLower, keyword) {
        var idx := Find(textLower, keyword);
        ContextWindow(text, keyword, idx);
        var context := text[Max(0, idx - 50)..Min(|text|, idx + 100)];
        AppendTechnology(constraints, ContextsFor(text, TechKeywords[..k]), Strip(context));
        constraints := constraints[0 := constraints[0].(items := constraints[0].items + [Strip(context)])];
      }
      k := k + 1;
    }
    assert TechKeywords[..k] == TechKeywords;
  }

  /** Appending to the technology bucket in place extends its list and leaves the other
      four categories as they were. */
  lemma AppendTechnology(constraints: seq<Category>, items: seq<string>, context: string)
    requires constraints == WithTechnology(items)
    ensures constraints[0 := constraints[0].(items := constraints[0].items + [context])]
         == WithTechnology(items + [context])
  {
  }

  // ---------------------------------------------------------------------------
  // structure_requirements_analysis

  /** structure_requirements_analysis: the three helpers applied to the same message and
      three lists left empty for deeper analysis. */
  function StructureRequirementsAnalysis(message: string): (analysis: Analysis)
    ensures analysis.dependencies == [] && analysis.acceptanceCriteria == [] && analysis.ambiguities == []
    ensures analysis.principal == Some(MainRequirementOf(message))
    ensures analysis.functionalities == FunctionalitiesOf(message)
    ensures analysis.constraints == ConstraintsOf(message)
  {
    Analysis(Some(MainRequirementOf(message)), FunctionalitiesOf(message), ConstraintsOf(message), [], [], [])
  }

  /** The constraints dictionary as a Python dict of lists of strings. */
  function ConstraintsDict(cs: seq<Category>): (d: map<string, Value>)
    ensures forall i :: 0 <= i < |cs| ==> cs[i].name in d
  {
    if cs == [] then map[]
    else ConstraintsDict(cs[..|cs| - 1])[cs[|cs| - 1].name := Strings(cs[|cs| - 1].items)]
  }

  /** The analysis as the Python dictionary the validators receive. */
  function AsDict(a: Analysis): (d: map<string, Value>)
    ensures "requirement_principal" in d <==> a.principal.Some?
    ensures a.principal.Some? ==> d["requirement_principal"] == VStr(a.principal.value)
    ensures "funcionalidades" in d && d["funcionalidades"] == Strings(a.functionalities)
    ensures "restricciones" in d && d["restricciones"] == VDict(ConstraintsDict(a.constraints))
    ensures "dependencias" in d && d["dependencias"] == Strings(a.dependencies)
    ensures "criterios_aceptacion" in d && d["criterios_aceptacion"] == Strings(a.acceptanceCriteria)
    ensures "ambiguedades" in d && d["ambiguedades"] == Strings(a.ambiguities)
  {
    var lists := map[
      "funcionalidades" := Strings(a.functionalities),
      "restricciones" := VDict(ConstraintsDict(a.constraints)),
      "dependencias" := Strings(a.dependencies),
      "criterios_aceptacion" := Strings(a.acceptanceCriteria),
      "ambiguedades" := Strings(a.ambiguities)];
    match a.principal
    case Some(p) => lists["requirement_principal" := VStr(p)]
    case None => lists
  }

  // ---------------------------------------------------------------------------
  // format_requirements_template

  function DigitChar(d: nat): char
    requires d < 10
  {
    (('0' as int) + d) as char
  }

  /** Decimal rendering of a natural number (`f"{i}"`). */
  function NatToString(n: nat): string
    decreases n
  {
    if n < 10 then [DigitChar(n)] else NatToString(n / 10) + [DigitChar(n % 10)]
  }

  predicate IsDigit(c: char) { '0' <= c <= '9' }

  /** The number a string of decimal digits denotes (`int(s)`, 0 for no digits). */
  function DecimalValue(s: string): nat
    requires forall c :: c in s ==> IsDigit(c)
  {
    if s == [] then 0
    else
      assert forall c :: c in s[..|s| - 1] ==> c in s;
      assert IsDigit(s[|s| - 1]);
      10 * DecimalValue(s[..|s| - 1]) + (s[|s| - 1] as int - '0' as int)
  }

  /** `f"{n}"` is the decimal numeral of `n`: digits only, no leading zero except in
      "0" itself, and it reads back as `n`. */
  lemma {:induction false} NatToStringIsDecimal(n: nat)
    ensures var r := NatToString(n);
      r != [] && (forall c :: c in r ==> IsDigit(c))
      && (r[0] == '0' ==> n == 0) && DecimalValue(r) == n
  {
    if n >= 10 {
      NatToStringIsDecimal(n / 10);
      var r, h := NatToString(n), NatToString(n / 10);
      assert r == h + [DigitChar(n % 10)];
      assert r[..|r| - 1] == h;
    }
  }

  /** Each line followed by a newline. */
  function Unlines(lines: seq<string>): string {
    if lines == [] then [] else lines[0] + "\n" + Unlines(lines[1..])
  }

  lemma {:induction false} UnlinesSnoc(lines: seq<string>, line: string)
    ensures Unlines(lines + [line]) == Unlines(lines) + line + "\n"
  {
    if lines != [] {
      assert (lines + [line])[1..] == lines[1..] + [line];
      UnlinesSnoc(lines[1..], line);
    }
  }

  /** `analysis.get('requirement_principal', 'No identificado')`. */
  function PrincipalText(a: Analysis): string {
    match a.principal
    case Some(p) => p
    case None => "No identificado"
  }

  function TemplateHeader(a: Analysis): seq<string> {
    ["", "## Análisis de Requerimientos", "", "### Requerimiento Principal",
     PrincipalText(a), "", "### Funcionalidades Requeridas"]
  }

  function NumberedLines(fs: seq<string>): seq<string> {
    seq(|fs|, i requires 0 <= i < |fs| => NatToString(i + 1) + ". " + fs[i])
  }

  predicate HasItems(c: Category) { c.items != [] }

  function CategoryLine(c: Category): string {
    "- " + Capitalize(c.name) + ": " + JoinWith(c.items, ", ")
  }

  function CategoryLines(cs: seq<Category>): seq<string> {
    var shown := Filter(cs, HasItems);
    seq(|shown|, k requires 0 <= k < |shown| => CategoryLine(shown[k]))
  }

  lemma CategoryLinesSnoc(cs: seq<Category>, c: Category)
    ensures CategoryLines(cs + [c]) == CategoryLines(cs) + (if HasItems(c) then [CategoryLine(c)] else [])
  {
    FilterSnoc(cs, c, HasItems);
  }

  lemma NumberedLinesStep(fs: seq<string>, i: nat)
    requires i < |fs|
    ensures NumberedLines(fs)[..i + 1] == NumberedLines(fs)[..i] + [NatToString(i + 1) + ". " + fs[i]]
  {
  }

  lemma CategoryLinesStep(cs: seq<Category>, j: nat)
    requires j < |cs|
    ensures CategoryLines(cs[..j + 1]) == CategoryLines(cs[..j]) + (if HasItems(cs[j]) then [CategoryLine(cs[j])] else [])
  {
    assert cs[..j + 1] == cs[..j] + [cs[j]];
    CategoryLinesSnoc(cs[..j], cs[j]);
  }

  /** The lines of the rendered template: the fixed header with the main requirement
      (or "No identificado"), the functionalities numbered from 1 in list order, the
      constraints heading and one line per category that has findings. */
  function TemplateLines(a: Analysis): (lines: seq<string>)
    ensures var n := |a.functionalities|;
      |lines| == 9 + n + |Filter(a.constraints, HasItems)|
      && lines[4] == (if a.principal.Some? then a.principal.value else "No identificado")
      && lines[7 + n] == "" && lines[8 + n] == "### Restricciones"
  {
    TemplateFront(a) + CategoryLines(a.constraints)
  }

  /** The template up to and including the constraints heading. */
  function TemplateFront(a: Analysis): (front: seq<string>)
    ensures |front| == 9 + |a.functionalities|
  {
    TemplateHeader(a) + NumberedLines(a.functionalities) + ["", "### Restricciones"]
  }

  /** The functionalities follow the header in list order, numbered from 1. */
  lemma {:induction false} TemplateNumbersFunctionalities(a: Analysis)
    ensures var lines, n := TemplateLines(a), |a.functionalities|;
      forall i :: 0 <= i < n ==> lines[7 + i] == NatToString(i + 1) + ". " + a.functionalities[i]
  {
    var front := TemplateHeader(a) + NumberedLines(a.functionalities);
    assert TemplateLines(a) == front + ["", "### Restricciones"] + CategoryLines(a.constraints);
  }

  /** After m lines, the line at m + k renders the category at the k-th position whose
      list is not empty. */
  lemma {:induction false} CategoryLinesAfter(lines: seq<string>, front: seq<string>, m: nat, cs: seq<Category>)
    requires |front| == m && lines == front + CategoryLines(cs)
    ensures var idx := KeptIndices(cs, HasItems);
      |lines| == m + |idx|
      && forall k :: 0 <= k < |idx| ==> lines[m + k] == CategoryLine(cs[idx[k]])
  {
    AfterKept(lines, front, m, CategoryLines(cs), cs, HasItems, CategoryLine);
  }

  /** The constraint lines of the template are exactly the categories with findings, in
      dictionary order: the k-th such line renders the category at the k-th position
      whose list is not empty. */
  lemma {:induction false} TemplateShowsNonEmptyCategories(a: Analysis)
    ensures var n := |a.functionalities|;
      var idx := KeptIndices(a.constraints, HasItems);
      |TemplateLines(a)| == 9 + n + |idx|
      && forall k :: 0 <= k < |idx| ==> TemplateLines(a)[9 + n + k] == CategoryLine(a.constraints[idx[k]])
  {
    CategoryLinesAfter(TemplateLines(a), TemplateFront(a), 9 + |a.functionalities|, a.constraints);
  }

  /** format_requirements_template: the header f-string, then one numbered line per
      functionality, the constraints heading, and one line per category with findings. */
  method FormatRequirementsTemplate(analysis: Analysis) returns (template: string)
    ensures template == Unlines(TemplateLines(analysis))
  {
    template := Unlines(TemplateHeader(analysis));
    ghost var lines := TemplateHeader(analysis);
    var fs := analysis.functionalities;
    var i := 0;
    while i < |fs|
      invariant 0 <= i <= |fs|
      invariant lines == TemplateHeader(analysis) + NumberedLines(fs)[..i]
      invariant template == Unlines(lines)
    {
      var line := NatToString(i + 1) + ". " + fs[i];
      UnlinesSnoc(lines, line);
      template := template + line + "\n";
      lines := lines + [line];
      NumberedLinesStep(fs, i);
      i := i + 1;
    }
    assert NumberedLines(fs)[..i] == NumberedLines(fs);
    RestriccionesHeading(lines);
    template := template + "\n### Restricciones\n";
    lines := lines + ["", "### Restricciones"];
    ghost var head := lines;
    var cs := analysis.constraints;
    var j := 0;
    while j < |cs|
      invariant 0 <= j <= |cs|
      invariant lines == head + CategoryLines(cs[..j])
      invariant template == Unlines(lines)
    {
      CategoryLinesStep(cs, j);
      if cs[j].items != [] {
        var line := "- " + Capitalize(cs[j].name) + ": " + JoinWith(cs[j].items, ", ");
        UnlinesSnoc(lines, line);
        assert line == CategoryLine(cs[j]);
        assert lines + [line] == head + (CategoryLines(cs[..j]) + [line]);
        template := template + line + "\n";
        lines := lines + [line];
      }
      j := j + 1;
    }
    assert cs[..j] == cs;
  }

  /** The constraints heading, written as one string, is a blank line and the heading. */
  lemma RestriccionesHeading(lines: seq<string>)
    ensures Unlines(lines + ["", "### Restricciones"]) == Unlines(lines) + "\n### Restricciones\n"
  {
    var h := "### Restricciones";
    BlankThenLine(lines, h);
    assert "\n### Restricciones\n" == ['\n'] + h + ['\n'];
  }

  /** A blank line and then `h` add a newline, `h` and another newline. */
  lemma BlankThenLine(lines: seq<string>, h: string)
    ensures Unlines(lines + ["", h]) == Unlines(lines) + (['\n'] + h + ['\n'])
  {
    UnlinesSnoc(lines, "");
    UnlinesSnoc(lines + [""], h);
    assert lines + ["", h] == lines + [""] + [h];
    assert Unlines(lines) + "" + "\n" == Unlines(lines) + ['\n'];
  }


  /** The template of a structured analysis shows the main requirement and at most one
      constraint line, the technology one. */
  lemma StructuredTemplate(message: string)
    ensures var a := StructureRequirementsAnalysis(message);
      TemplateLines(a)[4] == MainRequirementOf(message)
      && |TemplateLines(a)| <= 10 + |FunctionalitiesOf(message)|
  {
    AtMostFirstHasItems(ConstraintsOf(message));
  }

  /** When only the first category can have findings, at most one category is shown. */
  lemma AtMostFirstHasItems(cs: seq<Category>)
    requires forall i :: 1 <= i < |cs| ==> !HasItems(cs[i])
    ensures |Filter(cs, HasItems)| <= 1
  {
    FilterAtKeptIndices(cs, HasItems);
    var idx := KeptIndices(cs, HasItems);
    assert forall k :: 0 <= k < |idx| ==> idx[k] == 0;
  }
}
