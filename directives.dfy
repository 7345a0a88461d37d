/**
 * The `//colgen:` directive grammar (pkg/colgen/generator.go:41-212): the
 * rule model, the line parser, the per-entity merge and the validation that
 * only converter rules may stand without a base declaration.
 */
module Directives {
  import opened Wrappers
  import opened Strings
  import opened Errors
  import opened Patterns
  import opened Seqs

  const CustomRuleUnique: string := "Unique"
  const CustomRuleIndex: string := "Index"
  const FieldID: string := "ID"

  /** A structure and the name of its collection type. */
  datatype Entity = Entity(name: string, list: string)

  /**
   * NewEntity: `<Name>List` when the list suffix is forced, else the plural
   * of the name, falling back to `<Name>List` when pluralising changes
   * nothing; either way the collection type never shadows the structure.
   */
  function NewEntity(name: string, useList: bool, plural: string -> string): (e: Entity)
    ensures e.name == name
    ensures e.list != name
    ensures useList ==> e.list == name + "List"
    ensures !useList && plural(name) != name ==> e.list == plural(name)
    ensures !useList && plural(name) == name ==> e.list == name + "List"
  {
    var list := name + "List";
    assert |list| > |name|;
    if !useList && plural(name) != name then Entity(name, plural(name)) else Entity(name, list)
  }

  /** One derived-method request: collector, unique collector, index or converter. */
  datatype CustomRule = CustomRule(name: string, field: string, arg: string)

  /** One entity's generation plan. */
  datatype Rule = Rule(entityName: string, baseGen: bool, useListSuffix: bool, customRules: seq<CustomRule>)

  function Name(r: Rule): string
  {
    r.entityName
  }

  /** isMapP: Map, MapP, map, mapp in any casing. */
  predicate IsMapP(s: string)
  {
    ToLower(s) == "map" || ToLower(s) == "mapp"
  }

  /** reNameArg on one line: `^(\w+)\(([\w.]+)\)$`. */
  function MatchNameArg(l: string): Option<(string, string)>
  {
    var p := IndexOf(l, '(');
    if 0 < p && p + 2 < |l| && l[|l| - 1] == ')' && AllWord(l[..p]) && AllWordOrDot(l[p + 1..|l| - 1])
    then Some((l[..p], l[p + 1..|l| - 1]))
    else None
  }

  /** A line matches reNameArg exactly when it is `name(arg)` with a word name and a dotted-word arg. */
  lemma MatchNameArgShape(l: string, name: string, arg: string)
    ensures MatchNameArg(l) == Some((name, arg)) <==>
      (l == name + "(" + arg + ")" && name != [] && AllWord(name) && arg != [] && AllWordOrDot(arg))
  {
    if l == name + "(" + arg + ")" && name != [] && AllWord(name) && arg != [] && AllWordOrDot(arg) {
      assert l[..|name|] == name;
      assert '(' !in name by { assert forall i :: 0 <= i < |name| ==> name[i] != '('; }
      IndexOfIs(l, '(', |name|);
      assert l[|name| + 1..|l| - 1] == arg;
    }
    if MatchNameArg(l) == Some((name, arg)) {
      var p := IndexOf(l, '(');
      assert l == l[..p] + "(" + l[p + 1..|l| - 1] + ")";
    }
  }

  /**
   * The name and argument parseCustomRule reads from a token: the groups of
   * the first line matching reNameArg, or the whole token and no argument.
   */
  function NameArg(l: string): (na: (string, string))
    ensures na.1 == "" <==> FindLine(l, MatchNameArg).None?
    ensures na.1 == "" ==> na.0 == l
  {
    match FindLine(l, MatchNameArg)
    case Some(v) => v
    case None => (l, "")
  }

  /** The switch of parseCustomRule on a token's name and argument. */
  function Classify(l: string, name: string, arg: string): (r: Result<CustomRule, Error>)
    ensures r.Failure? <==> arg == "" && !HasPrefix(name, CustomRuleUnique) && (IsMapP(name) || name == CustomRuleIndex)
    ensures r.Failure? ==> r.error == Wrap(Sentinel(MissingArg), Quote(l))
    ensures r.Success? ==> WellFormedCustom(r.value)
    ensures r.Success? && HasPrefix(name, CustomRuleUnique) ==> r.value == CustomRule(CustomRuleUnique, name[|CustomRuleUnique|..], "")
  {
    if HasPrefix(name, CustomRuleUnique) then
      Success(CustomRule(CustomRuleUnique, TrimPrefix(name, CustomRuleUnique), ""))
    else if IsMapP(name) then
      if arg == "" then Failure(Wrap(Sentinel(MissingArg), Quote(l))) else Success(CustomRule(name, "", arg))
    else if name == CustomRuleIndex then
      if arg == "" then Failure(Wrap(Sentinel(MissingArg), Quote(l))) else Success(CustomRule(name, arg, ""))
    else
      Success(CustomRule("", name, ""))
  }

  /** One comma-separated token of a custom directive. */
  function ClassifySpec(l: string): Result<CustomRule, Error>
  {
    var na := NameArg(l);
    Classify(l, na.0, na.1)
  }

  /** The shapes a parsed custom rule can take. */
  predicate WellFormedCustom(cr: CustomRule)
  {
    || (cr.name == CustomRuleUnique && cr.arg == "")
    || (IsMapP(cr.name) && cr.arg != "" && cr.field == "")
    || (cr.name == CustomRuleIndex && cr.field != "" && cr.arg == "")
    || (cr.name == "" && cr.arg == "")
  }

  /**
   * Parsing a token fails, with a missing-argument error, exactly for a
   * converter or index token written without an argument, and otherwise
   * yields a well-formed rule.
   */
  lemma ClassifyOutcome(l: string)
    ensures ClassifySpec(l).Failure? <==>
      FindLine(l, MatchNameArg).None? && !HasPrefix(l, CustomRuleUnique) && (IsMapP(l) || l == CustomRuleIndex)
    ensures ClassifySpec(l).Failure? ==> ClassifySpec(l).error.kind == MissingArg
    ensures ClassifySpec(l).Success? ==> WellFormedCustom(ClassifySpec(l).value)
  {
    var na := NameArg(l);
    var r := Classify(l, na.0, na.1);
    assert ClassifySpec(l) == r;
    if r.Success? {
      assert WellFormedCustom(r.value);
    }
  }

  /** The text a custom rule is written as in a directive. */
  function SpecText(cr: CustomRule): string
  {
    if cr.name == CustomRuleUnique then CustomRuleUnique + cr.field
    else if cr.name == "" then cr.field
    else if cr.name == CustomRuleIndex then cr.name + "(" + cr.field + ")"
    else cr.name + "(" + cr.arg + ")"
  }

  /** Custom rules that can be written in a directive and read back unchanged. */
  predicate Writable(cr: CustomRule)
  {
    || (cr.name == CustomRuleUnique && cr.arg == "" && AllWord(cr.field))
    || (IsMapP(cr.name) && AllWord(cr.name) && cr.field == "" && cr.arg != "" && AllWordOrDot(cr.arg))
    || (cr.name == CustomRuleIndex && cr.arg == "" && cr.field != "" && AllWordOrDot(cr.field))
    || (cr.name == "" && cr.arg == "" && AllWord(cr.field) && cr.field != []
        && !HasPrefix(cr.field, CustomRuleUnique) && !IsMapP(cr.field) && cr.field != CustomRuleIndex)
  }

  lemma NoNewlineInWords(s: string)
    requires AllWordOrDot(s)
    ensures '\n' !in s && '(' !in s
  {
    assert forall i :: 0 <= i < |s| ==> s[i] != '\n' && s[i] != '(';
  }

  /** A token without parentheses is all name. */
  lemma NameArgPlain(t: string)
    requires AllWordOrDot(t)
    ensures NameArg(t) == (t, "")
  {
    NoNewlineInWords(t);
    FindSingleLine(t, MatchNameArg);
    assert IndexOf(t, '(') == -1;
  }

  /** A token `name(arg)` yields its name and argument. */
  lemma NameArgCall(name: string, arg: string)
    requires name != [] && AllWord(name) && arg != [] && AllWordOrDot(arg)
    ensures NameArg(name + "(" + arg + ")") == (name, arg)
  {
    var t := name + "(" + arg + ")";
    NoNewlineInWords(name);
    NoNewlineInWords(arg);
    assert '\n' !in t;
    FindSingleLine(t, MatchNameArg);
    MatchNameArgShape(t, name, arg);
  }

  /** Reading back a written custom rule gives the rule itself. */
  lemma ClassifySpecText(cr: CustomRule)
    requires Writable(cr)
    ensures ClassifySpec(SpecText(cr)) == Success(cr)
  {
    var t := SpecText(cr);
    if cr.name == CustomRuleUnique {
      assert AllWordOrDot(t);
      NameArgPlain(t);
      assert t[..6] == CustomRuleUnique;
      assert ClassifySpec(t) == Classify(t, t, "");
    } else if cr.name == "" {
      NameArgPlain(t);
      assert ClassifySpec(t) == Classify(t, t, "");
    } else {
      var arg := if cr.name == CustomRuleIndex then cr.field else cr.arg;
      NameArgCall(cr.name, arg);
      assert !HasPrefix(cr.name, CustomRuleUnique) by {
        if cr.name != CustomRuleIndex { assert |ToLower(cr.name)| <= 4; }
      }
      assert ClassifySpec(t) == Classify(t, cr.name, arg);
    }
  }

  /** parseCustomRule: `Entity:spec,spec,...` with exactly one colon. */
  function CustomLine(line: string): Result<seq<Rule>, Error>
  {
    var ll := Split(line, ':');
    if |ll| != 2 then Failure(Wrap(Sentinel(UnknownLine), Quote(line)))
    else
      match MapAll(Split(ll[1], ','), ClassifySpec)
      case Failure(e) => Failure(e)
      case Success(crs) => Success([Rule(ll[0], false, false, crs)])
  }

  /** parseEntities: one base rule per comma-separated name, untrimmed. */
  function EntitiesLine(line: string): seq<Rule>
  {
    var names := Split(line, ',');
    seq(|names|, i requires 0 <= i < |names| => Rule(names[i], true, false, []))
  }

  /** Writing a list of names as a directive and parsing it yields one base rule per name, in order. */
  lemma EntitiesLineOfNames(names: seq<string>)
    requires |names| >= 1 && forall n :: n in names ==> ',' !in n
    ensures |EntitiesLine(Join(names, ','))| == |names|
    ensures forall i :: 0 <= i < |names| ==>
      EntitiesLine(Join(names, ','))[i] == Rule(names[i], true, false, [])
  {
    SplitJoin(names, ',');
  }

  /** The ParseRules dispatch on a trimmed line. */
  function DispatchLine(line: string): Result<seq<Rule>, Error>
  {
    if line == "" then Success([])
    else if ':' in line then
      match CustomLine(line)
      case Failure(e) => Failure(Wrap(e, Quote(line)))
      case Success(rr) => Success(rr)
    else if ',' in line || ' ' !in line then Success(EntitiesLine(line))
    else Failure(Wrap(Sentinel(UnknownLine), Quote(line)))
  }

  /** One raw directive line: trimmed, then dispatched. */
  function ParseLine(raw: string): Result<seq<Rule>, Error>
  {
    DispatchLine(TrimSpace(raw))
  }

  /** The concatenated rules of all lines, or the first line's failure. */
  function ParseLines(lines: seq<string>): Result<seq<Rule>, Error>
  {
    ConcatAll(lines, ParseLine)
  }

  /** A parsed rule is a base declaration exactly when it carries no custom rules. */
  predicate Plain(r: Rule)
  {
    r.baseGen == (r.customRules == []) && !r.useListSuffix
  }

  /**
   * A custom directive parses exactly when it has one colon and every token
   * parses, and then gives one non-base rule for the entity before the colon
   * with one custom rule per token.
   */
  lemma CustomLineOutcome(line: string)
    ensures var ll := Split(line, ':');
      && (CustomLine(line).Success? <==>
            multiset(line)[':'] == 1 && MapAll(Split(ll[1], ','), ClassifySpec).Success?)
      && (CustomLine(line).Success? ==>
            && CustomLine(line).value == [Rule(ll[0], false, false, MapAll(Split(ll[1], ','), ClassifySpec).value)]
            && |CustomLine(line).value[0].customRules| == multiset(ll[1])[','] + 1
            && Plain(CustomLine(line).value[0]))
      && (CustomLine(line).Failure? ==> CustomLine(line).error.kind in {UnknownLine, MissingArg})
  {
    var ll := Split(line, ':');
    SplitCount(line, ':');
    if |ll| == 2 {
      var toks := Split(ll[1], ',');
      SplitCount(ll[1], ',');
      var m := MapAll(toks, ClassifySpec);
      if m.Failure? {
        ClassifyOutcome(toks[FirstFailure(toks, ClassifySpec)]);
      }
    }
  }

  /**
   * The dispatch of ParseRules for one line: blank lines give nothing, a line
   * with a colon is a custom directive, other lines give base rules when they
   * hold a comma or no space and fail otherwise; every rule produced is plain.
   */
  lemma DispatchLineOutcome(line: string)
    ensures line == "" ==> DispatchLine(line) == Success([])
    ensures ':' in line ==> (DispatchLine(line).Success? <==> CustomLine(line).Success?)
    ensures ':' in line && DispatchLine(line).Success? ==> DispatchLine(line) == CustomLine(line)
    ensures line != "" && ':' !in line ==> (DispatchLine(line).Success? <==> ',' in line || ' ' !in line)
    ensures line != "" && ':' !in line && DispatchLine(line).Success? ==> DispatchLine(line).value == EntitiesLine(line)
    ensures DispatchLine(line).Success? ==> forall r :: r in DispatchLine(line).value ==> Plain(r)
    ensures DispatchLine(line).Failure? ==> DispatchLine(line).error.kind in {UnknownLine, MissingArg}
  {
    if ':' in line {
      CustomLineOutcome(line);
    }
  }

  /** Every rule of a successful parse is plain. */
  lemma ParseLinesPlain(lines: seq<string>)
    requires ParseLines(lines).Success?
    ensures forall r :: r in ParseLines(lines).value ==> Plain(r)
  {
    forall r | r in ParseLines(lines).value
      ensures Plain(r)
    {
      ConcatAllMembers(lines, ParseLine, r);
      var k :| 0 <= k < |lines| && r in ParseLine(lines[k]).value;
      DispatchLineOutcome(TrimSpace(lines[k]));
    }
  }

  /** parseCustomRule, looping over the comma-separated tokens. */
  method ParseCustomRule(line: string) returns (res: Result<seq<Rule>, Error>)
    ensures res == CustomLine(line)
  {
    var ll := Split(line, ':');
    if |ll| != 2 {
      return Failure(Wrap(Sentinel(UnknownLine), Quote(line)));
    }
    // the token loop: classify each token in order, the first error aborting
    var crs := CollectAll(Split(ll[1], ','), ClassifySpec);
    if crs.Failure? {
      return Failure(crs.error);
    }
    return Success([Rule(ll[0], false, false, crs.value)]);
  }

  /** parseEntities, appending one base rule per token. */
  method ParseEntities(line: string) returns (rr: seq<Rule>)
    ensures rr == EntitiesLine(line)
  {
    var names := Split(line, ',');
    rr := [];
    for i := 0 to |names|
      invariant rr == EntitiesLine(line)[..i]
    {
      rr := rr + [Rule(names[i], true, false, [])];
    }
  }

  /** One iteration of the first loop of mergeRules. */
  function MergeStep(idx: map<string, Rule>, r: Rule, flag: bool): map<string, Rule>
  {
    var k := r.entityName;
    if k !in idx then idx[k := r.(useListSuffix := flag)]
    else if r.customRules == [] then idx[k := idx[k].(baseGen := true)]
    else idx[k := idx[k].(customRules := idx[k].customRules + r.customRules)]
  }

  /** The index mergeRules holds after its first loop. */
  function MergeIndex(rules: seq<Rule>, flag: bool): map<string, Rule>
  {
    if rules == [] then map[]
    else MergeStep(MergeIndex(rules[..|rules| - 1], flag), rules[|rules| - 1], flag)
  }

  lemma MergeIndexPrefix(rules: seq<Rule>, flag: bool, i: nat)
    requires i < |rules|
    ensures MergeIndex(rules[..i + 1], flag) == MergeStep(MergeIndex(rules[..i], flag), rules[i], flag)
  {
    assert rules[..i + 1][..i] == rules[..i];
  }

  /** The custom rules of `g`, in order. */
  function AllCustoms(g: seq<Rule>): seq<CustomRule>
  {
    if g == [] then [] else AllCustoms(g[..|g| - 1]) + g[|g| - 1].customRules
  }

  /**
   * The merge of one entity's rules, stated directly: the first rule, with the
   * list-suffix flag applied, carrying every custom rule in order, and a base
   * rule when it was one or when a later rule has no custom rules.
   */
  function MergeGroup(g: seq<Rule>, flag: bool): Rule
    requires g != []
  {
    g[0].(useListSuffix := flag,
          baseGen := g[0].baseGen || exists j :: 1 <= j < |g| && g[j].customRules == [],
          customRules := AllCustoms(g))
  }

  lemma MergeGroupSnoc(g: seq<Rule>, r: Rule, flag: bool)
    requires g != []
    ensures MergeGroup(g + [r], flag) ==
      if r.customRules == [] then MergeGroup(g, flag).(baseGen := true)
      else MergeGroup(g, flag).(customRules := MergeGroup(g, flag).customRules + r.customRules)
  {
    var h := g + [r];
    assert h[..|h| - 1] == g;
    assert forall j :: 1 <= j < |g| ==> h[j] == g[j];
    assert h[|g|] == r;
  }

  /** One loop step on the entry of the rule's own entity extends that entity's group. */
  lemma MergeStepSame(idx: map<string, Rule>, g: seq<Rule>, r: Rule, flag: bool)
    requires r.entityName in idx <==> g != []
    requires g != [] ==> idx[r.entityName] == MergeGroup(g, flag)
    ensures r.entityName in MergeStep(idx, r, flag)
    ensures MergeStep(idx, r, flag)[r.entityName] == MergeGroup(g + [r], flag)
  {
    if g == [] {
      assert g + [r] == [r];
      assert [r][..0] == [];
      assert AllCustoms([r]) == r.customRules;
    } else {
      MergeGroupSnoc(g, r, flag);
    }
  }

  /** The index entry for one entity after the first loop of mergeRules. */
  lemma {:induction false} MergeIndexAt(rules: seq<Rule>, flag: bool, k: string)
    ensures k in MergeIndex(rules, flag) <==> k in KeysOf(rules, Name)
    ensures k in MergeIndex(rules, flag) ==>
      Filter(rules, Name, k) != [] && MergeIndex(rules, flag)[k] == MergeGroup(Filter(rules, Name, k), flag)
  {
    if rules != [] {
      var n := |rules| - 1;
      var pre, r := rules[..n], rules[n];
      MergeIndexAt(pre, flag, k);
      KeysOfSnoc(rules, Name);
      FilterSnoc(rules, Name, k);
      var idx := MergeIndex(pre, flag);
      assert MergeIndex(rules, flag) == MergeStep(idx, r, flag);
      if k == r.entityName {
        if k !in idx {
          FilterAbsent(pre, Name, k);
        }
        MergeStepSame(idx, Filter(pre, Name, k), r, flag);
      } else {
        assert Filter(rules, Name, k) == Filter(pre, Name, k);
        assert k in MergeIndex(rules, flag) <==> k in idx;
        assert k in idx ==> MergeIndex(rules, flag)[k] == idx[k];
      }
    }
  }

  /**
   * mergeRules indexes exactly the entities that occur, and the rule for each
   * is the merge of that entity's rules in input order, under its own name.
   */
  lemma MergeIndexIsGroups(rules: seq<Rule>, flag: bool)
    ensures MergeIndex(rules, flag).Keys == KeysOf(rules, Name)
    ensures forall k :: k in MergeIndex(rules, flag) ==>
      Filter(rules, Name, k) != [] && MergeIndex(rules, flag)[k] == MergeGroup(Filter(rules, Name, k), flag)
    ensures KeyedByName(MergeIndex(rules, flag))
    ensures forall k :: k in MergeIndex(rules, flag) ==> MergeIndex(rules, flag)[k].useListSuffix == flag
  {
    forall k ensures k in MergeIndex(rules, flag) <==> k in KeysOf(rules, Name) {
      MergeIndexAt(rules, flag, k);
    }
    forall k | k in MergeIndex(rules, flag)
      ensures Filter(rules, Name, k) != [] && MergeIndex(rules, flag)[k] == MergeGroup(Filter(rules, Name, k), flag)
      ensures MergeIndex(rules, flag)[k].entityName == k
      ensures MergeIndex(rules, flag)[k].useListSuffix == flag
    {
      MergeIndexAt(rules, flag, k);
      var g := Filter(rules, Name, k);
      assert g[0] in g;
    }
  }

  /** Every entry of the index is filed under its own entity name. */
  ghost predicate KeyedByName(idx: map<string, Rule>)
  {
    forall k :: k in idx ==> idx[k].entityName == k
  }

  /** A custom rule is gathered exactly when one of the rules carries it. */
  lemma {:induction false} AllCustomsMembers(g: seq<Rule>, cr: CustomRule)
    ensures cr in AllCustoms(g) <==> exists r :: r in g && cr in r.customRules
  {
    if g != [] {
      var n := |g| - 1;
      AllCustomsMembers(g[..n], cr);
      assert g == g[..n] + [g[n]];
    }
  }

  /**
   * For parsed rules, the merged rule of an entity generates the base type
   * exactly when some directive declared the entity, and carries exactly the
   * custom rules written for it.
   */
  lemma MergedRule(rules: seq<Rule>, flag: bool, k: string)
    requires forall r :: r in rules ==> Plain(r)
    requires k in MergeIndex(rules, flag)
    ensures MergeIndex(rules, flag)[k].entityName == k
    ensures MergeIndex(rules, flag)[k].useListSuffix == flag
    ensures MergeIndex(rules, flag)[k].baseGen <==> exists r :: r in rules && r.entityName == k && r.baseGen
    ensures forall cr :: cr in MergeIndex(rules, flag)[k].customRules <==>
      exists r :: r in rules && r.entityName == k && cr in r.customRules
  {
    MergeIndexIsGroups(rules, flag);
    var g := Filter(rules, Name, k);
    assert g[0] in g;
    forall r | r in rules && r.entityName == k && r.baseGen
      ensures MergeIndex(rules, flag)[k].baseGen
    {
      var i :| 0 <= i < |rules| && rules[i] == r;
      FilterKeeps(rules, Name, i);
      var j :| 0 <= j < |g| && g[j] == r;
      assert j == 0 || g[j].customRules == [];
    }
    forall cr ensures cr in MergeIndex(rules, flag)[k].customRules <==>
      exists r :: r in rules && r.entityName == k && cr in r.customRules
    {
      AllCustomsMembers(g, cr);
      forall r | r in rules && r.entityName == k && cr in r.customRules ensures r in g {
        var i :| 0 <= i < |rules| && rules[i] == r;
        FilterKeeps(rules, Name, i);
      }
    }
  }

  /**
   * What mergeRules returns: one rule per entity, taken from the index,
   * ordered strictly by entity name.
   */
  ghost predicate IsMergeOf(out: seq<Rule>, rules: seq<Rule>, flag: bool)
  {
    var idx := MergeIndex(rules, flag);
    && StrictlySortedBy(out, Name)
    && KeysOf(out, Name) == idx.Keys
    && forall i :: 0 <= i < |out| ==> out[i].entityName in idx && out[i] == idx[out[i].entityName]
  }

  /** The merge does not depend on the order in which the index is read. */
  lemma MergeUnique(a: seq<Rule>, b: seq<Rule>, rules: seq<Rule>, flag: bool)
    requires IsMergeOf(a, rules, flag) && IsMergeOf(b, rules, flag)
    ensures a == b
  {
    StrictSortedKeysEqual(a, b, Name);
  }

  /** A lone rule that already carries the flag merges to itself. */
  lemma MergeGroupSingle(r: Rule, flag: bool)
    requires r.useListSuffix == flag
    ensures MergeGroup([r], flag) == r
  {
    assert [r][..0] == [];
    assert AllCustoms([r]) == r.customRules;
  }

  /** In rules with distinct names that carry the flag, each rule merges to itself. */
  lemma MergeDistinctAt(out: seq<Rule>, flag: bool, i: nat)
    requires i < |out| && DistinctKeys(out, Name) && out[i].useListSuffix == flag
    ensures out[i].entityName in MergeIndex(out, flag) && MergeIndex(out, flag)[out[i].entityName] == out[i]
  {
    MergeIndexAt(out, flag, out[i].entityName);
    assert out[i].entityName in KeysOf(out, Name);
    FilterDistinct(out, Name, i);
    MergeGroupSingle(out[i], flag);
  }

  /** Rules with distinct names that carry the flag are their own merge index. */
  lemma MergeDistinct(out: seq<Rule>, flag: bool)
    requires DistinctKeys(out, Name) && forall i :: 0 <= i < |out| ==> out[i].useListSuffix == flag
    ensures MergeIndex(out, flag).Keys == KeysOf(out, Name)
    ensures forall i :: 0 <= i < |out| ==>
      out[i].entityName in MergeIndex(out, flag) && out[i] == MergeIndex(out, flag)[out[i].entityName]
  {
    forall i | 0 <= i < |out|
      ensures out[i].entityName in MergeIndex(out, flag) && out[i] == MergeIndex(out, flag)[out[i].entityName]
    {
      MergeDistinctAt(out, flag, i);
    }
    forall k ensures k in MergeIndex(out, flag) <==> k in KeysOf(out, Name) {
      MergeIndexAt(out, flag, k);
    }
  }

  /** Merging a merge again, with the same flag, gives it back. */
  lemma MergeIdempotent(out: seq<Rule>, rules: seq<Rule>, flag: bool)
    requires IsMergeOf(out, rules, flag)
    ensures IsMergeOf(out, out, flag)
  {
    MergeIndexIsGroups(rules, flag);
    StrictDistinct(out, Name);
    MergeDistinct(out, flag);
  }

  /** Sorting the collected index values yields the merge. */
  lemma SortedCollection(col: seq<Rule>, out: seq<Rule>, rules: seq<Rule>, flag: bool)
    requires Collected(col, MergeIndex(rules, flag), {})
    requires multiset(out) == multiset(col) && StrictlySortedBy(out, Name)
    ensures IsMergeOf(out, rules, flag)
  {
    forall i | 0 <= i < |out|
      ensures out[i].entityName in MergeIndex(rules, flag) && out[i] == MergeIndex(rules, flag)[out[i].entityName]
    {
      assert out[i] in multiset(col);
    }
    forall k | k in KeysOf(out, Name) ensures k in KeysOf(col, Name) {
      var i :| 0 <= i < |out| && out[i].entityName == k;
      assert out[i] in multiset(col);
    }
    forall k | k in KeysOf(col, Name) ensures k in KeysOf(out, Name) {
      var i :| 0 <= i < |col| && col[i].entityName == k;
      assert col[i] in multiset(out);
    }
  }

  /** The state of the second loop of mergeRules: the values of the keys no longer pending, once each. */
  ghost predicate Collected(col: seq<Rule>, idx: map<string, Rule>, keys: set<string>)
  {
    && keys <= idx.Keys
    && KeysOf(col, Name) == idx.Keys - keys
    && DistinctKeys(col, Name)
    && forall i :: 0 <= i < |col| ==> col[i].entityName in idx && col[i] == idx[col[i].entityName]
  }

  /** Appending the index entry of a pending key. */
  lemma CollectStep(col: seq<Rule>, idx: map<string, Rule>, keys: set<string>, k: string)
    requires Collected(col, idx, keys) && KeyedByName(idx) && k in keys
    ensures Collected(col + [idx[k]], idx, keys - {k})
  {
    var c := col + [idx[k]];
    KeysOfSnoc(c, Name);
    assert c[..|c| - 1] == col;
    assert forall i :: 0 <= i < |col| ==> c[i] == col[i] && col[i].entityName in KeysOf(col, Name);
  }

  /** mergeRules: index the rules by entity, collect the index, sort by entity name. */
  method MergeRules(rules: seq<Rule>, flag: bool) returns (out: seq<Rule>)
    ensures IsMergeOf(out, rules, flag)
  {
    var idx: map<string, Rule> := map[];
    for i := 0 to |rules|
      invariant idx == MergeIndex(rules[..i], flag)
    {
      MergeIndexPrefix(rules, flag, i);
      idx := MergeStep(idx, rules[i], flag);
    }
    assert rules[..|rules|] == rules;
    MergeIndexIsGroups(rules, flag);
    var col: seq<Rule> := [];
    var keys := idx.Keys;
    while keys != {}
      invariant Collected(col, idx, keys) && KeyedByName(idx)
      decreases keys
    {
      var k :| k in keys;
      CollectStep(col, idx, keys, k);
      col := col + [idx[k]];
      keys := keys - {k};
    }
    out := SortBy(col, Name);
    SortedCollection(col, out, rules, flag);
  }

  /** validateRules accepts a rule that generates its base type or only carries converters. */
  predicate RuleValid(r: Rule)
  {
    r.baseGen || forall cr :: cr in r.customRules ==> IsMapP(cr.name)
  }

  /** The first custom rule that is not a converter, or -1. */
  function FirstNonMap(crs: seq<CustomRule>): (i: int)
    ensures -1 <= i < |crs|
    ensures i == -1 <==> forall cr :: cr in crs ==> IsMapP(cr.name)
    ensures 0 <= i ==> !IsMapP(crs[i].name) && forall j :: 0 <= j < i ==> IsMapP(crs[j].name)
  {
    if crs == [] then -1
    else if !IsMapP(crs[0].name) then 0
    else
      var i := FirstNonMap(crs[1..]);
      assert forall j :: 1 <= j < |crs| ==> crs[j] == crs[1..][j - 1];
      assert crs == [crs[0]] + crs[1..];
      if i < 0 then -1 else i + 1
  }

  /** validateRules: the error for the first offending rule and custom rule, if any. */
  function Validation(rules: seq<Rule>): (e: Option<Error>)
    ensures e.None? <==> forall r :: r in rules ==> RuleValid(r)
    ensures e.Some? ==> e.value.kind == MissingEntity
  {
    if rules == [] then None
    else if RuleValidation(rules[0]).Some? then RuleValidation(rules[0])
    else
      assert rules == [rules[0]] + rules[1..];
      Validation(rules[1..])
  }

  /** The error validateRules reports for one rule, if any. */
  function RuleValidation(r: Rule): (e: Option<Error>)
    ensures e.None? <==> RuleValid(r)
  {
    var i := FirstNonMap(r.customRules);
    if !r.baseGen && i >= 0 then Some(Wrap(Sentinel(MissingEntity), r.entityName + " for " + r.customRules[i].name))
    else None
  }

  /** validateRules, with its nested loops. */
  method ValidateRules(rules: seq<Rule>) returns (err: Option<Error>)
    ensures err == Validation(rules)
  {
    for i := 0 to |rules|
      invariant Validation(rules) == Validation(rules[i..])
    {
      assert rules[i..][0] == rules[i] && rules[i..][1..] == rules[i + 1..];
      err := ValidateRule(rules[i]);
      if err.Some? {
        return err;
      }
    }
    assert rules[|rules|..] == [];
    return None;
  }

  /** The inner loop of validateRules: the custom rules of a rule without base generation. */
  method ValidateRule(r: Rule) returns (err: Option<Error>)
    ensures err == RuleValidation(r)
  {
    if !r.baseGen {
      for c := 0 to |r.customRules|
        invariant forall j :: 0 <= j < c ==> IsMapP(r.customRules[j].name)
      {
        if !IsMapP(r.customRules[c].name) {
          assert FirstNonMap(r.customRules) == c;
          return Some(Wrap(Sentinel(MissingEntity), r.entityName + " for " + r.customRules[c].name));
        }
      }
      assert FirstNonMap(r.customRules) == -1;
    }
    return None;
  }

  /** An entity that is only converted, never declared, passes validation. */
  lemma ConverterOnlyExample()
    ensures Validation([Rule("Foo", false, true, [CustomRule("MapP", "", "db.Foo")])]).None?
  {
    assert ToLower("MapP") == "mapp";
  }

  /** An index on an entity that is never declared is refused. */
  lemma UndeclaredIndexExample()
    ensures Validation([Rule("Foo", false, true, [CustomRule("Index", "Title", "Title")])])
      == Some(Wrap(Sentinel(MissingEntity), "Foo for Index"))
  {
    assert ToLower("Index") == "index";
    assert FirstNonMap([CustomRule("Index", "Title", "Title")]) == 0;
    assert "Foo" + " for " + "Index" == "Foo for Index";
  }

  /** Some directive declares entity `k` for base generation. */
  ghost predicate Declared(rules: seq<Rule>, k: string)
  {
    exists r :: r in rules && r.entityName == k && r.baseGen
  }

  /** Every custom rule written for entity `k` is a converter. */
  ghost predicate OnlyConverters(rules: seq<Rule>, k: string)
  {
    forall r, cr :: r in rules && r.entityName == k && cr in r.customRules ==> IsMapP(cr.name)
  }

  /**
   * The meaning of the merge of parsed rules: one rule per entity written,
   * generating the base type exactly when the entity was declared and carrying
   * the custom rules written for it; validation passes exactly when every
   * entity was declared or has only converters.
   */
  lemma MergeMeaning(parsed: seq<Rule>, flag: bool, out: seq<Rule>)
    requires forall r :: r in parsed ==> Plain(r)
    requires IsMergeOf(out, parsed, flag)
    ensures KeysOf(out, Name) == KeysOf(parsed, Name)
    ensures forall i :: 0 <= i < |out| ==>
      && out[i].useListSuffix == flag
      && (out[i].baseGen <==> Declared(parsed, out[i].entityName))
      && (forall cr :: cr in out[i].customRules <==>
            exists r :: r in parsed && r.entityName == out[i].entityName && cr in r.customRules)
    ensures Validation(out).None? <==>
      forall k :: k in KeysOf(parsed, Name) ==> Declared(parsed, k) || OnlyConverters(parsed, k)
  {
    MergeIndexIsGroups(parsed, flag);
    forall i | 0 <= i < |out|
      ensures out[i].useListSuffix == flag
      ensures out[i].baseGen <==> Declared(parsed, out[i].entityName)
      ensures forall cr :: cr in out[i].customRules <==>
            exists r :: r in parsed && r.entityName == out[i].entityName && cr in r.customRules
      ensures RuleValid(out[i]) <==> Declared(parsed, out[i].entityName) || OnlyConverters(parsed, out[i].entityName)
    {
      MergedRule(parsed, flag, out[i].entityName);
    }
    forall k | k in KeysOf(parsed, Name)
      ensures exists i :: 0 <= i < |out| && out[i].entityName == k
    {
      assert k in KeysOf(out, Name);
    }
  }

  /**
   * ParseRules: parse every line, stopping at the first bad one; merge the
   * rules per entity; validate the merge, returning it with the validation
   * error.
   */
  method ParseRules(lines: seq<string>, flag: bool) returns (rules: seq<Rule>, err: Option<Error>)
    ensures ParseLines(lines).Failure? ==> rules == [] && err == Some(ParseLines(lines).error)
    ensures ParseLines(lines).Success? ==>
      IsMergeOf(rules, ParseLines(lines).value, flag) && err == Validation(rules)
  {
    var result: seq<Rule> := [];
    assert lines[0..] == lines;
    PrependNothing(ConcatAll(lines, ParseLine));
    for i := 0 to |lines|
      invariant ParseLines(lines) == Prepend(result, ConcatAll(lines[i..], ParseLine))
    {
      ConcatAllStep(lines, ParseLine, i);
      var line := TrimSpace(lines[i]);
      var rr: seq<Rule> := [];
      if line == "" {
      } else if ':' in line {
        var r := ParseCustomRule(line);
        if r.Failure? {
          return [], Some(Wrap(r.error, Quote(line)));
        }
        rr := r.value;
      } else if ',' in line || ' ' !in line {
        rr := ParseEntities(line);
      } else {
        return [], Some(Wrap(Sentinel(UnknownLine), Quote(line)));
      }
      assert ParseLine(lines[i]) == Success(rr);
      PrependAssoc(result, rr, ConcatAll(lines[i + 1..], ParseLine));
      result := result + rr;
    }
    assert lines[|lines|..] == [];
    assert result + [] == result;
    rules := MergeRules(result, flag);
    err := ValidateRules(rules);
  }
}
