/**
  The prompt that asks a language model to match a user request to one of a
  few candidate functions (`getMatchingPromptv3` and `toTSDescription` in
  lib/v3/prompts_parsers/matching.ts).

  The prompt is a conversation of three messages: a system message, the user's
  request verbatim, and an assistant prefill that starts the model's
  `<thinking>` section. The system message is modelled by its structure, not
  its prose: the numbered facts, whether rule 8 (use the consts) is present,
  whether the documentation step is present, the optional `<types>` block with
  its optional `<consts>` block, and the function signatures.
*/
module MatchingPrompt {
  import opened Wrappers
  import opened Strings

  /** A variable that function templates refer to as `{name}` or `{name1}`, `{name2}`, .... */
  datatype ApprovalVariable = ApprovalVariable(name: string, typeName: string, consts: seq<string>)

  /** A candidate function: its template text, its name and its description. */
  datatype FunctionMatch = FunctionMatch(text: string, fnName: string, description: string)

  datatype Organization = Organization(
    name: string,
    description: string,
    chatbotInstructions: string,
    chatToDocsEnabled: bool)

  /** What the JavaScript throws. */
  datatype PromptError =
    | MissingVariable(name: string)      // `variables.find(...)!.consts` on no variable of that name
    | NoMatchFound(placeholder: string)  // toTSDescription's "No match found for {name}"

  datatype Role = System | User | Assistant

  datatype TypesBlock = TypesBlock(typeDefs: seq<string>, consts: seq<string>)

  datatype SystemPrompt = SystemPrompt(
    assistantOf: string,        // whose assistant the model is told it is
    factsBlock: string,         // the numbered facts, one per line
    constsRule: bool,           // rule 8: the consts may be used as parameters
    docsStep: bool,             // step 5 of <thinking>: look for documentation
    types: Option<TypesBlock>,  // the <types> block, and inside it the <consts> block when non-empty
    functions: seq<string>)     // one TypeScript signature per candidate function

  datatype Content = Prompt(prompt: SystemPrompt) | Text(text: string)

  datatype Message = Message(role: Role, content: Content)

  const TypesFact := "<types></types>" + " define the TypeScript types used in " + "<functions></functions>"
  const Prefill := "<thinking>\n1. The user is requesting"
  const DefaultAssistantOf := "an ERP software package"

  // ---------------------------------------------------------------- placeholders

  /** The names captured by `/\{(\w+)}/g` on `s`, in order. */
  function Placeholders(s: string): (names: seq<string>)
    ensures forall i :: 0 <= i < |names| ==> IsWord(names[i])
    ensures '{' !in s ==> names == []
    decreases |s|
  {
    if s == [] then []
    else if s[0] == '{' then
      var j := RunEnd(s, 1, IsWordChar);
      if j > 1 && j < |s| && s[j] == '}' then [s[1..j]] + Placeholders(s[j + 1..])
      else Placeholders(s[1..])
    else Placeholders(s[1..])
  }

  /** The text `{w0}{w1}...`. */
  function Braced(ws: seq<string>): string {
    if ws == [] then "" else "{" + ws[0] + "}" + Braced(ws[1..])
  }

  /** The placeholder scanner reads one `{word}` off the front of a template. */
  lemma PlaceholdersFront(w: string, rest: string)
    requires IsWord(w)
    ensures Placeholders("{" + w + "}" + rest) == [w] + Placeholders(rest)
  {
    var s := "{" + w + "}" + rest;
    assert s[1..1 + |w|] == w && s[1 + |w|] == '}';
    PlaceholdersAtStart(s, w);
    assert s[|w| + 2..] == rest;
  }

  /** Every `{word}` written into a template is found again, in order. */
  lemma {:induction false} PlaceholdersOfBraced(ws: seq<string>)
    requires forall i :: 0 <= i < |ws| ==> IsWord(ws[i])
    ensures Placeholders(Braced(ws)) == ws
  {
    if ws != [] {
      var s := Braced(ws);
      var rest := Braced(ws[1..]);
      assert s == "{" + ws[0] + "}" + rest;
      PlaceholdersFront(ws[0], rest);
      PlaceholdersOfBraced(ws[1..]);
    }
  }

  /** `{w}` is written at position `i` of `s`. */
  predicate BracedAt(s: string, w: string, i: nat) {
    i + |w| + 1 < |s| && s[i] == '{' && s[i + 1..i + 1 + |w|] == w && s[i + 1 + |w|] == '}'
  }

  /** A `{w}` written at `k` in the suffix `s[d..]` is written at `k + d` in `s`. */
  lemma BracedShift(s: string, d: nat, w: string, k: nat, i: nat)
    requires d <= |s| && i == k + d
    ensures BracedAt(s[d..], w, k) <==> BracedAt(s, w, i)
  {
    if k + |w| + 1 < |s| - d {
      assert s[d..][k + 1..k + 1 + |w|] == s[i + 1..i + 1 + |w|];
    }
  }

  /** A text that starts with `{w}` yields `w` first. */
  lemma PlaceholdersAtStart(s: string, w: string)
    requires IsWord(w) && BracedAt(s, w, 0)
    ensures Placeholders(s) == [w] + Placeholders(s[|w| + 2..])
  {
    forall k | 1 <= k < 1 + |w| ensures IsWordChar(s[k]) {
      assert s[k] == w[k - 1];
    }
    RunEndAt(s, 1, 1 + |w|, IsWordChar);
  }

  /**
    Every `{word}` of a text is found. No earlier match can swallow its `{`,
    because a match holds `{` only as its first character.
  */
  lemma {:induction false} PlaceholdersComplete(s: string, w: string, i: nat)
    requires IsWord(w) && BracedAt(s, w, i)
    ensures w in Placeholders(s)
    decreases |s|
  {
    var j := RunEnd(s, 1, IsWordChar);
    if i == 0 {
      PlaceholdersAtStart(s, w);
    } else if s[0] == '{' && j > 1 && j < |s| && s[j] == '}' {
      assert j < i;
      PlaceholdersAfterMatch(s, j);
      var k := i - (j + 1);
      BracedShift(s, j + 1, w, k, i);
      PlaceholdersComplete(s[j + 1..], w, k);
    } else {
      PlaceholdersAfterSkip(s);
      var k := i - 1;
      BracedShift(s, 1, w, k, i);
      PlaceholdersComplete(s[1..], w, k);
    }
  }

  /** A match `{s[1..j]}` at the front is reported, and the scan goes on after its `}`. */
  lemma PlaceholdersAfterMatch(s: string, j: nat)
    requires 1 < j < |s| && s[0] == '{' && s[j] == '}' && j == RunEnd(s, 1, IsWordChar)
    ensures Placeholders(s) == [s[1..j]] + Placeholders(s[j + 1..])
  {
  }

  /** Without a match at the front, the scan goes on from the next character. */
  lemma PlaceholdersAfterSkip(s: string)
    requires s != []
    requires !(s[0] == '{' && 1 < RunEnd(s, 1, IsWordChar) < |s| && s[RunEnd(s, 1, IsWordChar)] == '}')
    ensures Placeholders(s) == Placeholders(s[1..])
  {
  }

  /** Every name found is a word written in braces somewhere in the text. */
  lemma {:induction false} PlaceholdersSound(s: string, w: string)
    requires w in Placeholders(s)
    ensures exists i :: BracedAt(s, w, i)
    decreases |s|
  {
    var j := RunEnd(s, 1, IsWordChar);
    if s[0] == '{' && j > 1 && j < |s| && s[j] == '}' {
      PlaceholdersAfterMatch(s, j);
      if w == s[1..j] {
        assert BracedAt(s, w, 0);
      } else {
        PlaceholdersSound(s[j + 1..], w);
        var k: nat :| BracedAt(s[j + 1..], w, k);
        BracedShift(s, j + 1, w, k, k + j + 1);
      }
    } else {
      PlaceholdersAfterSkip(s);
      PlaceholdersSound(s[1..], w);
      var k: nat :| BracedAt(s[1..], w, k);
      BracedShift(s, 1, w, k, k + 1);
    }
  }

  /** `/\{(\w+)}/g` finds exactly the words written in braces. */
  lemma PlaceholdersMembers(s: string, w: string)
    ensures w in Placeholders(s) <==> IsWord(w) && exists i :: BracedAt(s, w, i)
  {
    if w in Placeholders(s) {
      PlaceholdersSound(s, w);
    }
    if IsWord(w) && exists i :: BracedAt(s, w, i) {
      var i: nat :| BracedAt(s, w, i);
      PlaceholdersComplete(s, w, i);
    }
  }

  /** The name with one trailing digit removed (`isNaN(Number(lastChar))` is false exactly for digits). */
  function StripTrailingDigit(name: string): (r: string)
    ensures |name| - 1 <= |r| <= |name| && r == name[..|r|]
    ensures |r| < |name| <==> |name| > 0 && IsDigit(name[|name| - 1])
  {
    if |name| > 0 && IsDigit(name[|name| - 1]) then name[..|name| - 1] else name
  }

  function StrippedNames(ps: seq<string>): (r: seq<string>)
    ensures |r| == |ps| && forall i :: 0 <= i < |ps| ==> r[i] == StripTrailingDigit(ps[i])
  {
    seq(|ps|, i requires 0 <= i < |ps| => StripTrailingDigit(ps[i]))
  }

  /** Every placeholder of every match, stripped, in the order the loops visit them. */
  function AllStrippedPlaceholders(matches: seq<FunctionMatch>): seq<string> {
    if matches == [] then []
    else
      AllStrippedPlaceholders(matches[..|matches| - 1])
        + StrippedNames(Placeholders(matches[|matches| - 1].text))
  }

  /** `variableNamesToInclude`, as a specification. */
  function VariableNames(matches: seq<FunctionMatch>): seq<string> {
    Dedup(AllStrippedPlaceholders(matches))
  }

  /** `n` is the stripped form of one of the placeholders of `m`. */
  predicate IsStrippedPlaceholderOf(m: FunctionMatch, n: string) {
    exists p :: p in Placeholders(m.text) && n == StripTrailingDigit(p)
  }

  lemma StrippedNamesMembers(m: FunctionMatch, n: string)
    ensures n in StrippedNames(Placeholders(m.text)) <==> IsStrippedPlaceholderOf(m, n)
  {
    var ps := Placeholders(m.text);
    if IsStrippedPlaceholderOf(m, n) {
      var p :| p in ps && n == StripTrailingDigit(p);
      var k :| 0 <= k < |ps| && ps[k] == p;
      assert StrippedNames(ps)[k] == n;
    }
  }

  lemma AllStrippedSnoc(matches: seq<FunctionMatch>, i: nat)
    requires i < |matches|
    ensures AllStrippedPlaceholders(matches[..i + 1])
      == AllStrippedPlaceholders(matches[..i]) + StrippedNames(Placeholders(matches[i].text))
  {
    assert matches[..i + 1][..i] == matches[..i];
  }

  lemma {:induction false} StrippedPlaceholderMembers(matches: seq<FunctionMatch>, n: string)
    ensures n in AllStrippedPlaceholders(matches) <==>
      exists i :: 0 <= i < |matches| && IsStrippedPlaceholderOf(matches[i], n)
  {
    if matches != [] {
      var init, last := matches[..|matches| - 1], matches[|matches| - 1];
      var tail := StrippedNames(Placeholders(last.text));
      StrippedPlaceholderMembers(init, n);
      StrippedNamesMembers(last, n);
      assert AllStrippedPlaceholders(matches) == AllStrippedPlaceholders(init) + tail;
      if n in AllStrippedPlaceholders(init) {
        var i :| 0 <= i < |init| && IsStrippedPlaceholderOf(init[i], n);
        assert matches[i] == init[i];
      } else if n in tail {
        assert IsStrippedPlaceholderOf(matches[|matches| - 1], n);
      }
      if exists i :: 0 <= i < |matches| && IsStrippedPlaceholderOf(matches[i], n) {
        var i :| 0 <= i < |matches| && IsStrippedPlaceholderOf(matches[i], n);
        if i < |init| {
          assert init[i] == matches[i];
        }
      }
    }
  }

  lemma StrippedNamesSnoc(before: seq<string>, ps: seq<string>, j: nat)
    requires j < |ps|
    ensures before + StrippedNames(ps[..j + 1]) == (before + StrippedNames(ps[..j])) + [StripTrailingDigit(ps[j])]
  {
    assert StrippedNames(ps[..j + 1]) == StrippedNames(ps[..j]) + [StripTrailingDigit(ps[j])];
  }

  /**
    The first loop of getMatchingPromptv3: collects the variable names of all
    placeholders, each with at most one trailing digit removed, without
    duplicates and in order of first occurrence.
  */
  method CollectVariableNames(matches: seq<FunctionMatch>) returns (names: seq<string>)
    ensures names == VariableNames(matches)
    ensures NoDuplicates(names)
    ensures forall n :: n in names <==>
      exists i :: 0 <= i < |matches| && IsStrippedPlaceholderOf(matches[i], n)
    ensures forall i, j :: 0 <= i < j < |names| ==>
      FirstIndex(AllStrippedPlaceholders(matches), names[i]) < FirstIndex(AllStrippedPlaceholders(matches), names[j])
  {
    names := [];
    for i := 0 to |matches|
      invariant names == Dedup(AllStrippedPlaceholders(matches[..i]))
    {
      names := AddStrippedNames(names, AllStrippedPlaceholders(matches[..i]), Placeholders(matches[i].text));
      AllStrippedSnoc(matches, i);
    }
    assert matches[..|matches|] == matches;
    VariableNamesProperties(matches);
  }

  /**
    The inner `forEach` over one match's placeholders: each stripped name not
    yet collected is pushed.
  */
  method AddStrippedNames(names: seq<string>, ghost before: seq<string>, ps: seq<string>) returns (r: seq<string>)
    requires names == Dedup(before)
    ensures r == Dedup(before + StrippedNames(ps))
  {
    r := names;
    assert before + StrippedNames(ps[..0]) == before;
    for j := 0 to |ps|
      invariant r == Dedup(before + StrippedNames(ps[..j]))
    {
      var v := StripTrailingDigit(ps[j]);
      StrippedNamesSnoc(before, ps, j);
      DedupSnoc(before + StrippedNames(ps[..j]), v);
      if v !in r {
        r := r + [v];
      }
    }
    assert ps[..|ps|] == ps;
  }

  /** The collected names are distinct, are exactly the stripped placeholders, and keep first-occurrence order. */
  lemma VariableNamesProperties(matches: seq<FunctionMatch>)
    ensures NoDuplicates(VariableNames(matches))
    ensures forall n :: n in VariableNames(matches) <==>
      exists i :: 0 <= i < |matches| && IsStrippedPlaceholderOf(matches[i], n)
    ensures forall i, j :: 0 <= i < j < |VariableNames(matches)| ==>
      FirstIndex(AllStrippedPlaceholders(matches), VariableNames(matches)[i])
        < FirstIndex(AllStrippedPlaceholders(matches), VariableNames(matches)[j])
  {
    forall n ensures n in VariableNames(matches) <==> exists i :: 0 <= i < |matches| && IsStrippedPlaceholderOf(matches[i], n) {
      StrippedPlaceholderMembers(matches, n);
    }
    DedupKeepsFirstOccurrenceOrder(AllStrippedPlaceholders(matches));
  }

  // ---------------------------------------------------------------- facts

  /** The facts, in order: the organisation's description, its instruction lines, the types fact, the user's lines. */
  function FactList(org: Organization, noVariables: bool, userDescription: string): seq<string> {
    [org.description] + NonEmptyLines(org.chatbotInstructions)
      + (if noVariables then [] else [TypesFact])
      + NonEmptyLines(userDescription)
  }

  /** The `facts` array of getMatchingPromptv3, built by push and concat. */
  method BuildFacts(org: Organization, noVariables: bool, userDescription: string) returns (facts: seq<string>)
    ensures facts == FactList(org, noVariables, userDescription)
    ensures |facts| == 1 + |NonEmptyLines(org.chatbotInstructions)| + (if noVariables then 0 else 1)
      + |NonEmptyLines(userDescription)|
  {
    facts := [org.description] + NonEmptyLines(org.chatbotInstructions);
    if !noVariables {
      facts := facts + [TypesFact];
    }
    if userDescription != "" {
      facts := facts + NonEmptyLines(userDescription);
    } else {
      assert NonEmptyLines(userDescription) == [];
    }
  }

  /** `facts.map((f, i) => `${i + 1}. ${f}`)`. */
  function NumberedFacts(facts: seq<string>): (lines: seq<string>)
    ensures |lines| == |facts|
  {
    seq(|facts|, i requires 0 <= i < |facts| => DecimalString(i + 1) + ". " + facts[i])
  }

  function FactsBlock(facts: seq<string>): string {
    Join(NumberedFacts(facts), "\n")
  }

  lemma FactsAreSingleLines(org: Organization, noVariables: bool, userDescription: string)
    requires '\n' !in org.description
    ensures forall f :: f in FactList(org, noVariables, userDescription) ==> '\n' !in f
  {
    var a, b := NonEmptyLines(org.chatbotInstructions), NonEmptyLines(userDescription);
    var t: seq<string> := if noVariables then [] else [TypesFact];
    assert FactList(org, noVariables, userDescription) == [org.description] + a + t + b;
    forall f | f in [org.description] + a + t + b ensures '\n' !in f {
      if f in a {
        var k :| 0 <= k < |a| && a[k] == f;
      } else if f in b {
        var k :| 0 <= k < |b| && b[k] == f;
      } else if f in t {
        TypesFactSingleLine();
      }
    }
  }

  /** Proof helper: the types fact is one line, checked literal by literal outside the larger proof. */
  lemma TypesFactSingleLine()
    ensures '\n' !in TypesFact
  {
    assert '\n' !in "<types></types>";
    assert '\n' !in " define the TypeScript types used in ";
    assert '\n' !in "<functions></functions>";
  }

  /**
    Read back line by line, the facts block holds fact k under number k + 1,
    one fact per line, provided the organisation's description is a single line.
  */
  lemma FactsBlockLines(org: Organization, noVariables: bool, userDescription: string)
    requires '\n' !in org.description
    ensures var facts := FactList(org, noVariables, userDescription);
      && |Split(FactsBlock(facts), '\n')| == |facts|
      && forall k :: 0 <= k < |facts| ==>
           Split(FactsBlock(facts), '\n')[k] == DecimalString(k + 1) + ". " + facts[k]
  {
    var facts := FactList(org, noVariables, userDescription);
    var lines := NumberedFacts(facts);
    FactsAreSingleLines(org, noVariables, userDescription);
    forall k | 0 <= k < |facts| ensures '\n' !in lines[k] {
      var d := DecimalString(k + 1);
      assert facts[k] in facts;
      assert lines[k] == d + ". " + facts[k];
      assert '\n' !in d;
    }
    SplitJoin(lines, '\n');
  }

  // ---------------------------------------------------------------- variables and consts

  /** `variables.find((t) => t.name === name)`. */
  function Find(vars: seq<ApprovalVariable>, name: string): (r: Option<ApprovalVariable>)
    ensures r.Some? ==> r.value in vars && r.value.name == name
    ensures r.Some? ==> exists i :: 0 <= i < |vars| && vars[i] == r.value && NoneNamedBefore(vars, name, i)
    ensures r.None? <==> forall i :: 0 <= i < |vars| ==> vars[i].name != name
  {
    if vars == [] then None
    else if vars[0].name == name then
      assert NoneNamedBefore(vars, name, 0);
      Some(vars[0])
    else
      var r := Find(vars[1..], name);
      if r.Some? then
        ghost var i :| 0 <= i < |vars[1..]| && vars[1..][i] == r.value && NoneNamedBefore(vars[1..], name, i);
        assert vars[i + 1] == r.value;
        assert NoneNamedBefore(vars, name, i + 1) by {
          forall j | 0 <= j < i + 1 ensures vars[j].name != name {
            if j > 0 {
              assert vars[j] == vars[1..][j - 1];
            }
          }
        }
        r
      else r
  }

  /** No variable before index `i` is called `name`. */
  predicate NoneNamedBefore(vars: seq<ApprovalVariable>, name: string, i: nat)
    requires i <= |vars|
  {
    forall j :: 0 <= j < i ==> vars[j].name != name
  }

  predicate Defined(names: seq<string>, vars: seq<ApprovalVariable>) {
    forall i :: 0 <= i < |names| ==> Find(vars, names[i]).Some?
  }

  /** The first name for which the non-null assertion `find(...)!` fails. */
  function FirstMissing(names: seq<string>, vars: seq<ApprovalVariable>): (r: Option<string>)
    ensures r.None? <==> Defined(names, vars)
    ensures r.Some? ==> r.value in names && Find(vars, r.value).None?
    ensures r.Some? ==> exists i :: 0 <= i < |names| && names[i] == r.value && Defined(names[..i], vars)
  {
    if names == [] then None
    else if Find(vars, names[0]).None? then
      assert Defined(names[..0], vars);
      Some(names[0])
    else
      var r := FirstMissing(names[1..], vars);
      assert names == [names[0]] + names[1..];
      DefinedCons(names[0], names[1..], vars);
      if r.Some? then
        ghost var i :| 0 <= i < |names[1..]| && names[1..][i] == r.value && Defined(names[1..][..i], vars);
        assert names[..i + 1] == [names[0]] + names[1..][..i];
        DefinedCons(names[0], names[1..][..i], vars);
        assert names[i + 1] == r.value;
        r
      else r
  }

  /** A list is defined exactly when its head and its tail are. */
  lemma DefinedCons(n: string, names: seq<string>, vars: seq<ApprovalVariable>)
    ensures Defined([n] + names, vars) <==> Find(vars, n).Some? && Defined(names, vars)
  {
    assert ([n] + names)[0] == n;
    assert forall i :: 0 <= i < |names| ==> ([n] + names)[i + 1] == names[i];
  }

  function TodayConst(today: string): string {
    "const today: ISODate = \"" + today + "\";"
  }

  /**
    `constsToInclude`: the consts of the variables, de-duplicated in order, then
    today's date when a `fromDate` variable is used. The date is a parameter.
  */
  function ConstsToInclude(names: seq<string>, vars: seq<ApprovalVariable>, today: string): seq<string>
    requires Defined(names, vars)
  {
    Dedup(Flatten(seq(|names|, i requires 0 <= i < |names| => Find(vars, names[i]).value.consts)))
      + (if "fromDate" in names then [TodayConst(today)] else [])
  }

  /**
    `variables.find((t) => t.name === "fromDate")!.consts.push(todayString)`:
    the first variable named `fromDate` gets today's constant appended. The
    push changes the caller's variable, so every later `find` sees it.
  */
  function WithTodayConst(vars: seq<ApprovalVariable>, today: string): (r: seq<ApprovalVariable>)
    ensures |r| == |vars|
    ensures forall i :: 0 <= i < |vars| ==> r[i].name == vars[i].name && r[i].typeName == vars[i].typeName
  {
    if vars == [] then []
    else if vars[0].name == "fromDate" then [vars[0].(consts := vars[0].consts + [TodayConst(today)])] + vars[1..]
    else [vars[0]] + WithTodayConst(vars[1..], today)
  }

  /** After the push, `find` returns the same variables, the `fromDate` one with today's constant added. */
  lemma {:induction false} FindWithToday(vars: seq<ApprovalVariable>, today: string, name: string)
    ensures Find(WithTodayConst(vars, today), name) ==
      match Find(vars, name)
      case None => None
      case Some(v) => Some(if name == "fromDate" then v.(consts := v.consts + [TodayConst(today)]) else v)
  {
    if vars != [] {
      var r := WithTodayConst(vars, today);
      if vars[0].name == "fromDate" {
        assert r[1..] == vars[1..];
      } else {
        assert r[1..] == WithTodayConst(vars[1..], today);
        FindWithToday(vars[1..], today, name);
      }
    }
  }

  lemma DefinedWithToday(names: seq<string>, vars: seq<ApprovalVariable>, today: string)
    ensures Defined(names, WithTodayConst(vars, today)) <==> Defined(names, vars)
  {
    forall i | 0 <= i < |names| ensures Find(WithTodayConst(vars, today), names[i]).Some? <==> Find(vars, names[i]).Some? {
      FindWithToday(vars, today, names[i]);
    }
  }

  /** The contents of `<types>`: one definition per variable, de-duplicated in order. */
  function TypeDefs(names: seq<string>, vars: seq<ApprovalVariable>, typeDef: ApprovalVariable -> string): seq<string>
    requires Defined(names, vars)
  {
    Dedup(seq(|names|, i requires 0 <= i < |names| => typeDef(Find(vars, names[i]).value)))
  }

  // ---------------------------------------------------------------- toTSDescription

  function Signature(m: FunctionMatch): string {
    "/** " + m.description + " **/\nfunction " + m.fnName + "("
  }

  /**
    The `name: typeName` entries: the name keeps its digit, the type is that of
    the first variable named like the name with one trailing digit stripped;
    the first placeholder without such a variable is the error.
  */
  function ArgEntries(ps: seq<string>, vars: seq<ApprovalVariable>): (r: Result<seq<string>, PromptError>)
    ensures r.Failure? ==> r.error.NoMatchFound?
  {
    if ps == [] then Success([])
    else
      match Find(vars, StripTrailingDigit(ps[0]))
      case None => Failure(NoMatchFound("{" + ps[0] + "}"))
      case Some(v) =>
        match ArgEntries(ps[1..], vars)
        case Failure(e) => Failure(e)
        case Success(rest) => Success([ps[0] + ": " + v.typeName] + rest)
  }

  predicate Resolvable(p: string, vars: seq<ApprovalVariable>) {
    Find(vars, StripTrailingDigit(p)).Some?
  }

  /**
    The descriptions succeed exactly when every placeholder resolves; entry
    `i` is then the placeholder as written with the type of its variable.
  */
  lemma ArgEntriesSucceed(ps: seq<string>, vars: seq<ApprovalVariable>)
    ensures ArgEntries(ps, vars).Success? <==> forall i :: 0 <= i < |ps| ==> Resolvable(ps[i], vars)
    ensures ArgEntries(ps, vars).Success? ==> |ArgEntries(ps, vars).value| == |ps| && forall i :: 0 <= i < |ps| ==>
      ArgEntries(ps, vars).value[i] == ps[i] + ": " + Find(vars, StripTrailingDigit(ps[i])).value.typeName
  {
    ArgEntriesResolvable(ps, vars);
    if ArgEntries(ps, vars).Success? {
      ArgEntriesValues(ps, vars);
    }
  }

  lemma {:induction false} ArgEntriesResolvable(ps: seq<string>, vars: seq<ApprovalVariable>)
    ensures ArgEntries(ps, vars).Success? <==> forall i :: 0 <= i < |ps| ==> Resolvable(ps[i], vars)
  {
    if ps != [] {
      var tail := ps[1..];
      ArgEntriesResolvable(tail, vars);
      assert forall i :: 1 <= i < |ps| ==> ps[i] == tail[i - 1];
      if Resolvable(ps[0], vars) && ArgEntries(tail, vars).Failure? {
        var j :| 0 <= j < |tail| && !Resolvable(tail[j], vars);
        assert !Resolvable(ps[j + 1], vars);
      }
    }
  }

  lemma {:induction false} ArgEntriesValues(ps: seq<string>, vars: seq<ApprovalVariable>)
    requires ArgEntries(ps, vars).Success?
    ensures |ArgEntries(ps, vars).value| == |ps|
    ensures forall i :: 0 <= i < |ps| ==> (Resolvable(ps[i], vars)
      && ArgEntries(ps, vars).value[i] == ps[i] + ": " + Find(vars, StripTrailingDigit(ps[i])).value.typeName)
  {
    if ps != [] {
      var tail := ps[1..];
      var v := Find(vars, StripTrailingDigit(ps[0])).value;
      assert ArgEntries(ps, vars) == Success([ps[0] + ": " + v.typeName] + ArgEntries(tail, vars).value);
      ArgEntriesValues(tail, vars);
      assert forall i :: 1 <= i < |ps| ==> ps[i] == tail[i - 1];
    }
  }

  /** The error names the first placeholder, braces included, whose stripped name has no variable. */
  lemma {:induction false} ArgEntriesFailure(ps: seq<string>, vars: seq<ApprovalVariable>)
    requires ArgEntries(ps, vars).Failure?
    ensures exists i :: (0 <= i < |ps| && !Resolvable(ps[i], vars)
      && ArgEntries(ps, vars).error == NoMatchFound("{" + ps[i] + "}")
      && forall j :: 0 <= j < i ==> Resolvable(ps[j], vars))
  {
    if Resolvable(ps[0], vars) {
      var tail := ps[1..];
      ArgEntriesFailure(tail, vars);
      var i :| 0 <= i < |tail| && !Resolvable(tail[i], vars)
        && ArgEntries(tail, vars).error == NoMatchFound("{" + tail[i] + "}")
        && forall j :: 0 <= j < i ==> Resolvable(tail[j], vars);
      assert ArgEntries(ps, vars).error == ArgEntries(tail, vars).error;
      forall j | 0 <= j < i + 1 ensures Resolvable(ps[j], vars) {
        if j > 0 {
          assert ps[j] == tail[j - 1];
        }
      }
      assert ps[i + 1] == tail[i];
    } else {
      assert ArgEntries(ps, vars).error == NoMatchFound("{" + ps[0] + "}");
    }
  }

  /** `toTSDescription(match, variables)`. */
  function ToTSDescription(m: FunctionMatch, vars: seq<ApprovalVariable>): (r: Result<string, PromptError>)
    ensures Placeholders(m.text) == [] ==> r == Success(Signature(m) + ")")
    ensures r.Success? <==> forall i :: 0 <= i < |Placeholders(m.text)| ==> Resolvable(Placeholders(m.text)[i], vars)
    ensures r.Failure? ==> r.error.NoMatchFound?
    ensures r.Success? && Placeholders(m.text) != [] ==> (ArgEntries(Placeholders(m.text), vars).Success?
      && r.value == Signature(m) + "args: {" + Join(ArgEntries(Placeholders(m.text), vars).value, ", ") + "})")
  {
    var ps := Placeholders(m.text);
    ArgEntriesSucceed(ps, vars);
    if ps == [] then Success(Signature(m) + ")")
    else
      match ArgEntries(ps, vars)
      case Failure(e) =>
        ArgEntriesFailure(ps, vars);
        ghost var i :| 0 <= i < |ps| && !Resolvable(ps[i], vars);
        assert !Resolvable(Placeholders(m.text)[i], vars);
        Failure(e)
      case Success(entries) => Success(Signature(m) + "args: {" + Join(entries, ", ") + "})")
  }

  /** A successful description lists each placeholder as written, with the type of its variable. */
  lemma DescriptionEntries(m: FunctionMatch, vars: seq<ApprovalVariable>)
    requires ToTSDescription(m, vars).Success? && Placeholders(m.text) != []
    ensures var ps := Placeholders(m.text);
      ToTSDescription(m, vars).value == Signature(m) + "args: {" + Join(seq(|ps|, i requires 0 <= i < |ps| =>
        ps[i] + ": " + Find(vars, StripTrailingDigit(ps[i])).value.typeName), ", ") + "})"
  {
    var ps := Placeholders(m.text);
    ArgEntriesSucceed(ps, vars);
    var entries := seq(|ps|, i requires 0 <= i < |ps| => ps[i] + ": " + Find(vars, StripTrailingDigit(ps[i])).value.typeName);
    assert ArgEntries(ps, vars).value == entries;
  }

  /** The push changes no name and no type, so the argument entries stay the same. */
  lemma {:induction false} ArgEntriesWithToday(ps: seq<string>, vars: seq<ApprovalVariable>, today: string)
    ensures ArgEntries(ps, WithTodayConst(vars, today)) == ArgEntries(ps, vars)
  {
    if ps != [] {
      FindWithToday(vars, today, StripTrailingDigit(ps[0]));
      ArgEntriesWithToday(ps[1..], vars, today);
    }
  }

  /** `matches.map((m) => toTSDescription(m, variables))`: the first throw aborts the map. */
  function FunctionDescriptions(matches: seq<FunctionMatch>, vars: seq<ApprovalVariable>): (r: Result<seq<string>, PromptError>)
    ensures r.Success? <==> forall i :: 0 <= i < |matches| ==> ToTSDescription(matches[i], vars).Success?
    ensures r.Success? ==> (|r.value| == |matches|
      && forall i :: 0 <= i < |matches| ==> ToTSDescription(matches[i], vars) == Success(r.value[i]))
  {
    if matches == [] then Success([])
    else
      assert forall i :: 1 <= i < |matches| ==> matches[i] == matches[1..][i - 1];
      var first := ToTSDescription(matches[0], vars);
      if first.Failure? then Failure(first.error)
      else
        var d := first.value;
        match FunctionDescriptions(matches[1..], vars)
        case Failure(e) =>
          ghost var j :| 0 <= j < |matches[1..]| && ToTSDescription(matches[1..][j], vars).Failure?;
          assert matches[j + 1] == matches[1..][j];
          Failure(e)
        case Success(rest) => Success([d] + rest)
  }

  /** The signatures written after the push are those the variables as passed would give. */
  lemma {:induction false} DescriptionsWithToday(matches: seq<FunctionMatch>, vars: seq<ApprovalVariable>, today: string)
    ensures FunctionDescriptions(matches, WithTodayConst(vars, today)) == FunctionDescriptions(matches, vars)
  {
    if matches != [] {
      ArgEntriesWithToday(Placeholders(matches[0].text), vars, today);
      DescriptionsWithToday(matches[1..], vars, today);
    }
  }

  /** The variables after getMatchingPromptv3: today's constant pushed when a `fromDate` placeholder is used. */
  function PushToday(names: seq<string>, vars: seq<ApprovalVariable>, today: string): seq<ApprovalVariable> {
    if "fromDate" in names then WithTodayConst(vars, today) else vars
  }

  lemma PushTodayKeeps(matches: seq<FunctionMatch>, names: seq<string>, vars: seq<ApprovalVariable>, today: string)
    ensures Defined(names, PushToday(names, vars, today)) <==> Defined(names, vars)
    ensures FunctionDescriptions(matches, PushToday(names, vars, today)) == FunctionDescriptions(matches, vars)
  {
    DefinedWithToday(names, vars, today);
    DescriptionsWithToday(matches, vars, today);
  }

  /**
    Once every collected variable name has a variable, no signature can throw:
    each placeholder's stripped name is one of the collected names.
  */
  lemma DescriptionsSucceed(matches: seq<FunctionMatch>, vars: seq<ApprovalVariable>)
    requires Defined(VariableNames(matches), vars)
    ensures FunctionDescriptions(matches, vars).Success?
  {
    forall i, k | 0 <= i < |matches| && 0 <= k < |Placeholders(matches[i].text)|
      ensures Find(vars, StripTrailingDigit(Placeholders(matches[i].text)[k])).Some?
    {
      var p := Placeholders(matches[i].text)[k];
      var n := StripTrailingDigit(p);
      StrippedPlaceholderMembers(matches, n);
      var all := AllStrippedPlaceholders(matches);
      assert n in all;
      var j :| 0 <= j < |Dedup(all)| && Dedup(all)[j] == n;
    }
  }

  // ---------------------------------------------------------------- the prompt

  /**
    `getMatchingPromptv3`. It fails exactly when some collected variable name
    has no variable, naming the first such name; otherwise it returns the three
    messages. `varsAfter` is the caller's variables as the call leaves them:
    when a `fromDate` placeholder is used, today's constant has been pushed onto
    that variable, and the types block is written from the variables after the push.
  */
  method GetMatchingPrompt(
    userRequest: string,
    matches: seq<FunctionMatch>,
    org: Organization,
    userDescription: string,
    vars: seq<ApprovalVariable>,
    today: string,
    typeDef: ApprovalVariable -> string)
    returns (r: Result<seq<Message>, PromptError>, varsAfter: seq<ApprovalVariable>)
    ensures r.Failure? <==> !Defined(VariableNames(matches), vars)
    ensures r.Failure? ==> (r.error.MissingVariable?
      && r.error.name in VariableNames(matches) && Find(vars, r.error.name).None?
      && exists i :: 0 <= i < |VariableNames(matches)| && VariableNames(matches)[i] == r.error.name
           && Defined(VariableNames(matches)[..i], vars))
    ensures varsAfter == if r.Success? then PushToday(VariableNames(matches), vars, today) else vars
    ensures r.Success? ==> Defined(VariableNames(matches), varsAfter)
    ensures r.Success? ==> (|r.value| == 3
      && r.value[0].role == System && r.value[0].content.Prompt?
      && r.value[1] == Message(User, Text(userRequest))
      && r.value[2] == Message(Assistant, Text(Prefill)))
    ensures r.Success? ==>
      var names := VariableNames(matches);
      var p := r.value[0].content.prompt;
      && p.assistantOf == (if org.name == "" then DefaultAssistantOf else org.name)
      && p.factsBlock == FactsBlock(FactList(org, names == [], userDescription))
      && p.constsRule == (ConstsToInclude(names, vars, today) != [])
      && (names == [] ==> !p.constsRule)
      && p.docsStep == org.chatToDocsEnabled
      && (p.types.Some? <==> names != [])
      && (p.types.Some? ==> p.types.value == TypesBlock(TypeDefs(names, varsAfter, typeDef), ConstsToInclude(names, vars, today)))
      && |p.functions| == |matches|
      && forall i :: 0 <= i < |matches| ==> ToTSDescription(matches[i], vars) == Success(p.functions[i])
  {
    var names := CollectVariableNames(matches);
    var facts := BuildFacts(org, names == [], userDescription);
    var missing := FirstMissing(names, vars);
    if missing.Some? {
      return Failure(MissingVariable(missing.value)), vars;
    }
    var messages;
    messages, varsAfter := AssembleMessages(userRequest, matches, org, vars, today, typeDef, names, facts);
    r := Success(messages);
  }

  /**
    The rest of getMatchingPromptv3 once every name has a variable: the consts,
    the push of today's constant, and the three messages.
  */
  method AssembleMessages(
    userRequest: string,
    matches: seq<FunctionMatch>,
    org: Organization,
    vars: seq<ApprovalVariable>,
    today: string,
    typeDef: ApprovalVariable -> string,
    names: seq<string>,
    facts: seq<string>)
    returns (messages: seq<Message>, varsAfter: seq<ApprovalVariable>)
    requires names == VariableNames(matches) && Defined(names, vars)
    ensures varsAfter == PushToday(names, vars, today)
    ensures Defined(names, varsAfter)
    ensures |messages| == 3
      && messages[0].role == System && messages[0].content.Prompt?
      && messages[1] == Message(User, Text(userRequest))
      && messages[2] == Message(Assistant, Text(Prefill))
    ensures var p := messages[0].content.prompt;
      && p.assistantOf == (if org.name == "" then DefaultAssistantOf else org.name)
      && p.factsBlock == FactsBlock(facts)
      && p.constsRule == (ConstsToInclude(names, vars, today) != [])
      && p.docsStep == org.chatToDocsEnabled
      && (p.types.Some? <==> names != [])
      && (p.types.Some? ==> p.types.value == TypesBlock(TypeDefs(names, varsAfter, typeDef), ConstsToInclude(names, vars, today)))
      && |p.functions| == |matches|
      && forall i :: 0 <= i < |matches| ==> ToTSDescription(matches[i], vars) == Success(p.functions[i])
  {
    var consts := ConstsToInclude(names, vars, today);
    varsAfter := PushToday(names, vars, today);
    PushTodayKeeps(matches, names, vars, today);
    DescriptionsSucceed(matches, vars);
    var functions := FunctionDescriptions(matches, varsAfter).value;
    assert |functions| == |matches|;
    assert forall i :: 0 <= i < |matches| ==> ToTSDescription(matches[i], vars) == Success(functions[i]);
    var types := if names == [] then None else Some(TypesBlock(TypeDefs(names, varsAfter, typeDef), consts));
    var system := SystemPrompt(
      if org.name == "" then DefaultAssistantOf else org.name,
      FactsBlock(facts),
      |consts| > 0,
      org.chatToDocsEnabled,
      types,
      functions);
    messages := [
      Message(System, Prompt(system)),
      Message(User, Text(userRequest)),
      Message(Assistant, Text(Prefill))];
  }
}
