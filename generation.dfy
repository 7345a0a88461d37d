/**
 * The code generator of pkg/colgen/generator.go:214-533: a text emitter that
 * writes a file header and, per merged rule, the collection type and the
 * methods its custom rules ask for, stopping at the first rule that fails.
 * Template rendering is modelled by the text each template produces.
 */
module Generation {
  import opened Wrappers
  import opened Strings
  import opened Errors
  import opened Seqs
  import opened Directives
  import opened FieldModel

  /** A loaded package, reduced to the fields of each struct type it declares. */
  type Package = map<string, seq<RawField>>

  /** What rule generation reads: the loaded package, the pluraliser and the converter package. */
  datatype Env = Env(pkg: Option<Package>, plural: string -> string, funcPkgName: string)

  /** lookupType: no type without a package, else the scope lookup. */
  function Lookup(pkg: Option<Package>, name: string): (t: Resolved)
    ensures t.Some? <==> pkg.Some? && name in pkg.value
  {
    if pkg.Some? && name in pkg.value then Some(pkg.value[name]) else None
  }

  /** lastRuneToLower, for ASCII letters. */
  function LastRuneToLower(s: string): (r: string)
    ensures |r| == |s|
    ensures s != [] ==> r[..|s| - 1] == s[..|s| - 1] && r[|s| - 1] == LowerChar(s[|s| - 1])
    ensures s == [] ==> r == s
  {
    if s == [] then s
    else if LowerChar(s[|s| - 1]) == s[|s| - 1] then s
    else s[..|s| - 1] + [LowerChar(s[|s| - 1])]
  }

  /** firsRuneToLower, for ASCII letters. */
  function FirstRuneToLower(s: string): (r: string)
    ensures |r| == |s|
    ensures s != [] ==> r[0] == LowerChar(s[0]) && r[1..] == s[1..]
    ensures s == [] ==> r == s
  {
    if s == [] then s else [LowerChar(s[0])] + s[1..]
  }

  const DoNotEdit: string := "// Code generated by colgen; DO NOT EDIT."

  /** The quoted import lines, one per import, appended to the buffer `b`. */
  function ImportsAfter(b: string, imports: seq<string>): (r: string)
  {
    if imports == [] then b else ImportsAfter(b, imports[..|imports| - 1]) + Quote(imports[|imports| - 1]) + "\n"
  }

  /** genHead appended to `b`: the generated-code marker, the package clause and the import block. */
  function HeadAfter(b: string, pkgName: string, imports: seq<string>): string
  {
    var h := b + DoNotEdit + "\n" + ("package " + pkgName) + "\n" + "\n";
    if imports == [] then h else ImportsAfter(h + "import (" + "\n", imports) + ")"
  }

  /** genType. */
  function TypeText(e: Entity): string
  {
    "type " + e.list + " []" + e.name
  }

  /** genField: a method collecting one field of every element. */
  function FieldText(e: Entity, funcName: string, fieldType: string, fieldName: string): string
  {
    "\nfunc (ll " + e.list + ") " + funcName + "() []" + fieldType + " {\n"
    + "\tr := make([]" + fieldType + ", len(ll))\n"
    + "\tfor i := range ll {\n"
    + "\t\tr[i] = ll[i]." + fieldName + "\n"
    + "\t}\n"
    + "\treturn r\n"
    + "}"
  }

  /** genIndex: a method indexing the elements by one field. */
  function IndexText(e: Entity, funcName: string, fieldType: string, fieldName: string): string
  {
    "\nfunc (ll " + e.list + ") Index" + funcName + "() map[" + fieldType + "]" + e.name + " {\n"
    + "\tr := make(map[" + fieldType + "]" + e.name + ", len(ll))\n"
    + "\tfor i := range ll {\n"
    + "\t\tr[ll[i]." + fieldName + "] = ll[i]\n"
    + "\t}\n"
    + "\treturn r\n"
    + "}"
  }

  /** genUniqueField: a method listing the distinct values of one field. */
  function UniqueFieldText(e: Entity, funcName: string, fieldType: string, fieldName: string): string
  {
    "\nfunc (ll " + e.list + ") Unique" + funcName + "() []" + fieldType + " {\n"
    + "\tidx := make(map[" + fieldType + "]struct{})\n"
    + "\tfor i := range ll {\n"
    + "\t\tif _, ok := idx[ll[i]." + fieldName + "]; !ok {\n"
    + "             idx[ll[i]." + fieldName + "] = struct{}{}\n"
    + "        }\n"
    + "\t}\n"
    + "\n"
    + "\tr, i := make([]" + fieldType + ", len(idx)), 0\n"
    + "\tfor k := range idx {\n"
    + "\t\tr[i] = k\n"
    + "        i++\n"
    + "\t}\n"
    + "\treturn r    \n"
    + "}"
  }

  /** genUniqueFieldSlice: a method listing the distinct values of one slice field, flattened. */
  function UniqueFieldSliceText(e: Entity, funcName: string, fieldType: string, fieldName: string): string
  {
    "\nfunc (ll " + e.list + ") Unique" + funcName + "() []" + fieldType + " {\n"
    + "\tidx := make(map[" + fieldType + "]struct{})\n"
    + "\tfor i := range ll {\n"
    + "\t\tfor _, v := range ll[i]." + fieldName + " {\n"
    + "\t\t    if _, ok := idx[v]; !ok {\n"
    + "                idx[v] = struct{}{}\n"
    + "            }\n"
    + "        }\n"
    + "\t}\n"
    + "\n"
    + "\tr, i := make([]" + fieldType + ", len(idx)), 0\n"
    + "\tfor k := range idx {\n"
    + "\t\tr[i] = k\n"
    + "        i++\n"
    + "\t}\n"
    + "\treturn r    \n"
    + "}\n"
  }

  /** The converter line of genMap, filled in as its format string is. */
  function MapLine(new_: string, list: string, inputType: string, returnType: string, call: string, name: string): string
  {
    "func " + new_ + list + "(in []" + inputType + ") " + returnType + " { return " + call + "(in, " + new_ + name + ") }"
  }

  /** The element type a converter reads: the argument, qualified by the entity name when it has no dot. */
  function InputType(arg: string, e: Entity): (t: string)
    ensures HasPrefix(t, arg) && '.' in t
  {
    if '.' in arg then arg else arg + "." + e.name
  }

  /**
   * genMap appended to `b`: a converter named after the collection type,
   * returning the collection type when the entity has base generation and a
   * plain slice otherwise, delegating to the per-element constructor.
   */
  function MapAfter(b: string, funcPkgName: string, method_: string, arg: string, e: Entity, isLower: bool, hasType: bool): (r: string)
  {
    var new_ := if isLower then "new" else "New";
    var returnType := if hasType then e.list else "[]" + e.name;
    var call := if funcPkgName != "" then funcPkgName + "." + method_ else method_;
    b + "\n" + MapLine(new_, e.list, InputType(arg, e), returnType, call, e.name) + "\n"
  }

  /** The field map of an entity. */
  function Fields(env: Env, name: string): (fields: map<string, string>)
    ensures fields == map[] <==> env.pkg.None? || name !in env.pkg.value || env.pkg.value[name] == []
  {
    TypeMapEmpty(Lookup(env.pkg, name));
    TypeMap(Lookup(env.pkg, name))
  }

  /** The base generation of generateByRule appended to `b`: the collection type, then the ID collector and index when there is an ID field. */
  function BaseAfter(b: string, env: Env, rule: Rule, e: Entity): (r: string)
  {
    var fields := Fields(env, rule.entityName);
    if !rule.baseGen then b
    else if FieldID !in fields then b + TypeText(e) + "\n"
    else
      b + TypeText(e) + "\n" + "\n" + FieldText(e, LastRuneToLower(env.plural(FieldID)), fields[FieldID], FieldID) + "\n"
      + IndexText(e, "", fields[FieldID], FieldID) + "\n"
  }

  /** The four spellings the switch of generateByRule turns into a converter. */
  predicate ConverterSpelling(name: string)
  {
    name == "Map" || name == "MapP" || name == "map" || name == "mapp"
  }

  /** The converter cases of the switch of generateByRule, appended to `b`. */
  function ConverterAfter(b: string, env: Env, rule: Rule, e: Entity, cr: CustomRule): (r: string)
    requires ConverterSpelling(cr.name)
  {
    if cr.name == "Map" || cr.name == "MapP" then MapAfter(b, env.funcPkgName, cr.name, cr.arg, e, false, rule.baseGen)
    else if cr.name == "map" then MapAfter(b, env.funcPkgName, "Map", cr.arg, e, true, rule.baseGen)
    else MapAfter(b, env.funcPkgName, "MapP", cr.arg, e, true, rule.baseGen)
  }

  /** The field cases of the switch of generateByRule, appended to `b`; any other rule name appends nothing. */
  function FieldRuleAfter(b: string, env: Env, rule: Rule, e: Entity, cr: CustomRule): (r: string)
  {
    var fields := Fields(env, rule.entityName);
    var fType := if cr.field in fields then fields[cr.field] else "";
    if cr.name == CustomRuleUnique then
      var funcName := LastRuneToLower(env.plural(cr.field));
      if HasPrefix(fType, "[]") then b + UniqueFieldSliceText(e, funcName, TrimPrefix(fType, "[]"), cr.field)
      else b + UniqueFieldText(e, funcName, fType, cr.field)
    else if cr.name == CustomRuleIndex then b + IndexText(e, "By" + cr.field, fType, cr.field)
    else if cr.name == "" then b + FieldText(e, LastRuneToLower(env.plural(cr.field)), fType, cr.field)
    else b
  }

  /** What the switch of generateByRule appends to `b` for one custom rule, followed by its newline. */
  function CustomAfter(b: string, env: Env, rule: Rule, e: Entity, cr: CustomRule): (r: string)
  {
    (if ConverterSpelling(cr.name) then ConverterAfter(b, env, rule, e, cr) else FieldRuleAfter(b, env, rule, e, cr)) + "\n"
  }

  /** A custom rule that names a field the entity lacks, other than a converter. */
  predicate MissingFieldOf(env: Env, rule: Rule, cr: CustomRule)
  {
    cr.field !in Fields(env, rule.entityName) && !IsMapP(cr.name)
  }

  /** The custom-rule loop of generateByRule from buffer `b`: the buffer after it and the error that stopped it, if any. */
  function CustomsAfter(b: string, env: Env, rule: Rule, e: Entity, crs: seq<CustomRule>): (string, Option<Error>)
    decreases |crs|
  {
    if crs == [] then (b, None)
    else
      var t := CustomAfter(b, env, rule, e, crs[0]);
      if MissingFieldOf(env, rule, crs[0]) then (t, Some(Wrap(Sentinel(MissingField), crs[0].field)))
      else CustomsAfter(t, env, rule, e, crs[1..])
  }

  /** generateByRule from buffer `b`: the buffer after it and the error it returns. */
  function RuleAfter(b: string, env: Env, rule: Rule): (string, Option<Error>)
  {
    if Fields(env, rule.entityName) == map[] then (b, Some(Wrap(Sentinel(MissingType), rule.entityName)))
    else
      var e := NewEntity(rule.entityName, rule.useListSuffix, env.plural);
      CustomsAfter(BaseAfter(b, env, rule, e), env, rule, e, rule.customRules)
  }

  /** The rule loop of Generate from buffer `b`: the buffer after it and the wrapped error of the first failing rule. */
  function RulesAfter(b: string, env: Env, rules: seq<Rule>): (string, Option<Error>)
    decreases |rules|
  {
    if rules == [] then (b, None)
    else
      var r := RuleAfter(b, env, rules[0]);
      if r.1.Some? then (r.0, Some(Wrap(r.1.value, rules[0].entityName)))
      else RulesAfter(r.0, env, rules[1..])
  }

  /** SetError: the first error is kept, optionally prefixed with the joined messages. */
  function ErrorAfter(current: Option<Error>, e: Option<Error>, msg: seq<string>): (r: Option<Error>)
    ensures current.Some? ==> r == current
    ensures r.None? <==> current.None? && e.None?
    ensures current.None? && e.Some? ==> r.value.kind == e.value.kind
    ensures current.None? && e.Some? && msg == [] ==> r == e
  {
    if e.Some? && current.None? then Some(if |msg| > 0 then Prefix(msg, e.value) else e.value)
    else current
  }

  /** The error of the custom-rule loop, stated without the text: the first rule naming an absent field. */
  function MissingFieldError(env: Env, rule: Rule, crs: seq<CustomRule>): (r: Option<Error>)
    ensures r.Some? <==> exists j :: 0 <= j < |crs| && MissingFieldOf(env, rule, crs[j])
    ensures r.Some? ==> r.value.kind == MissingField
    decreases |crs|
  {
    if crs == [] then None
    else if MissingFieldOf(env, rule, crs[0]) then Some(Wrap(Sentinel(MissingField), crs[0].field))
    else
      var r := MissingFieldError(env, rule, crs[1..]);
      assert forall j :: 1 <= j < |crs| ==> crs[j] == crs[1..][j - 1];
      r
  }

  /** The custom-rule error names the field of the first rule whose field is absent. */
  lemma {:induction false} MissingFieldErrorFirst(env: Env, rule: Rule, crs: seq<CustomRule>, j: nat)
    requires j < |crs| && MissingFieldOf(env, rule, crs[j])
    requires forall i :: 0 <= i < j ==> !MissingFieldOf(env, rule, crs[i])
    ensures MissingFieldError(env, rule, crs) == Some(Wrap(Sentinel(MissingField), crs[j].field))
    decreases j
  {
    if j > 0 {
      assert crs[1..][j - 1] == crs[j];
      MissingFieldErrorFirst(env, rule, crs[1..], j - 1);
    }
  }

  /** The error of generateByRule, stated without the text. */
  function RuleError(env: Env, rule: Rule): Option<Error>
  {
    if Fields(env, rule.entityName) == map[] then Some(Wrap(Sentinel(MissingType), rule.entityName))
    else MissingFieldError(env, rule, rule.customRules)
  }

  /** A rule fails with a missing type exactly when its entity has no fields, and fails at all only then or for an absent field. */
  lemma RuleErrorCases(env: Env, rule: Rule)
    ensures var r := RuleError(env, rule);
      && ((r.Some? && r.value.kind == MissingType) <==> Fields(env, rule.entityName) == map[])
      && (r.Some? <==>
        (Fields(env, rule.entityName) == map[] || exists j :: 0 <= j < |rule.customRules| && MissingFieldOf(env, rule, rule.customRules[j])))
  {
  }

  /** The error of each rule, as a function value the rule loop can be stated over. */
  function RuleErrorOf(env: Env): Rule -> Option<Error>
  {
    rule => RuleError(env, rule)
  }

  /** The error of the rule loop of Generate, stated without the text: the first failing rule's error, naming the entity. */
  function RulesError(env: Env, rules: seq<Rule>): Option<Error>
  {
    var first := FirstSome(rules, RuleErrorOf(env));
    if first.None? then None else Some(Wrap(first.value.1, first.value.0.entityName))
  }

  /** The rule loop fails exactly when some rule fails. */
  lemma RulesErrorSome(env: Env, rules: seq<Rule>)
    ensures RulesError(env, rules).Some? <==> exists k :: 0 <= k < |rules| && RuleError(env, rules[k]).Some?
  {
    FirstSomeExists(rules, RuleErrorOf(env));
  }

  /** When the rule loop fails, it fails with the error of the first failing rule, wrapped with that rule's entity name. */
  lemma RulesErrorFirst(env: Env, rules: seq<Rule>, k: nat)
    requires k < |rules| && RuleError(env, rules[k]).Some?
    requires forall j :: 0 <= j < k ==> RuleError(env, rules[j]).None?
    ensures RulesError(env, rules) == Some(Wrap(RuleError(env, rules[k]).value, rules[k].entityName))
  {
    FirstSomeAt(rules, RuleErrorOf(env), k);
  }

  /** The custom-rule loop fails exactly with the error of its first rule naming an absent field. */
  lemma {:induction false} CustomsAfterError(b: string, env: Env, rule: Rule, e: Entity, crs: seq<CustomRule>)
    ensures CustomsAfter(b, env, rule, e, crs).1 == MissingFieldError(env, rule, crs)
    decreases |crs|
  {
    if crs != [] && !MissingFieldOf(env, rule, crs[0]) {
      CustomsAfterError(CustomAfter(b, env, rule, e, crs[0]), env, rule, e, crs[1..]);
    }
  }

  /** generateByRule fails with a missing type or the first missing field, whatever the buffer held. */
  lemma RuleAfterError(b: string, env: Env, rule: Rule)
    ensures RuleAfter(b, env, rule).1 == RuleError(env, rule)
  {
    if Fields(env, rule.entityName) != map[] {
      var e := NewEntity(rule.entityName, rule.useListSuffix, env.plural);
      CustomsAfterError(BaseAfter(b, env, rule, e), env, rule, e, rule.customRules);
    }
  }

  /** A missing type is reported before anything is written. */
  lemma RuleAfterMissingType(b: string, env: Env, rule: Rule)
    ensures (RuleAfter(b, env, rule).1.Some? && RuleAfter(b, env, rule).1.value.kind == MissingType)
      <==> Fields(env, rule.entityName) == map[]
    ensures Fields(env, rule.entityName) == map[] ==> RuleAfter(b, env, rule).0 == b
  {
    RuleAfterError(b, env, rule);
    RuleErrorCases(env, rule);
  }

  /** Generate's rule loop stops at the first failing rule and returns its error wrapped with the entity name. */
  lemma {:induction false} RulesAfterError(b: string, env: Env, rules: seq<Rule>)
    ensures RulesAfter(b, env, rules).1 == RulesError(env, rules)
    decreases |rules|
  {
    if rules != [] {
      RuleAfterError(b, env, rules[0]);
      if RuleError(env, rules[0]).None? {
        RulesAfterError(RuleAfter(b, env, rules[0]).0, env, rules[1..]);
      }
    }
  }

  /**
   * The missing-field check runs after the rule's text is written: when the
   * j-th custom rule is the first naming an absent field, the buffer holds
   * the text of the rules before it and then its own text.
   */
  lemma {:induction false} MissingFieldAfterText(b: string, env: Env, rule: Rule, e: Entity, crs: seq<CustomRule>, j: nat)
    requires j < |crs| && MissingFieldOf(env, rule, crs[j])
    requires forall i :: 0 <= i < j ==> !MissingFieldOf(env, rule, crs[i])
    ensures CustomsAfter(b, env, rule, e, crs)
      == (CustomAfter(CustomsAfter(b, env, rule, e, crs[..j]).0, env, rule, e, crs[j]), Some(Wrap(Sentinel(MissingField), crs[j].field)))
    decreases j
  {
    if j > 0 {
      var t := CustomAfter(b, env, rule, e, crs[0]);
      assert crs[..j][0] == crs[0] && crs[..j][1..] == crs[1..][..j - 1];
      assert crs[1..][j - 1] == crs[j];
      MissingFieldAfterText(t, env, rule, e, crs[1..], j - 1);
    }
  }

  /** A converter spelled in another casing passes validation and the field check, and only a newline is written for it. */
  lemma OddCasingConverter(b: string, env: Env, rule: Rule, e: Entity, cr: CustomRule)
    requires IsMapP(cr.name) && !ConverterSpelling(cr.name)
    ensures CustomAfter(b, env, rule, e, cr) == b + "\n"
    ensures !MissingFieldOf(env, rule, cr)
  {
    assert cr.name != CustomRuleUnique && cr.name != CustomRuleIndex && cr.name != "" by {
      assert ToLower(CustomRuleUnique)[0] == 'u' && ToLower(CustomRuleIndex)[0] == 'i';
    }
  }

  lemma OddCasingExample()
    ensures IsMapP("MAP") && !ConverterSpelling("MAP")
  {
    assert ToLower("MAP") == "map";
  }

  /** The converter is named after the collection type and builds its elements with the entity's constructor. */
  lemma MapNamingExample()
    ensures MapAfter("", "", "Map", "db", Entity("User", "Users"), false, true)
      == "\n" + MapLine("New", "Users", "db.User", "Users", "Map", "User") + "\n"
  {
    UnqualifiedInput();
  }

  lemma UnqualifiedInput()
    ensures InputType("db", Entity("User", "Users")) == "db.User"
  {
    assert '.' !in "db";
  }

  /** A lower-case converter of a non-base entity returns a plain slice and calls into the converter package. */
  lemma LowerMapNamingExample()
    ensures MapAfter("", "colgen", "MapP", "db.Row", Entity("User", "UserList"), true, false)
      == "\n" + MapLine("new", "UserList", "db.Row", "[]User", "colgen.MapP", "User") + "\n"
  {
    QualifiedInput();
    assert "colgen" + "." + "MapP" == "colgen.MapP";
  }

  lemma QualifiedInput()
    ensures InputType("db.Row", Entity("User", "UserList")) == "db.Row"
  {
    assert "db.Row"[2] == '.';
  }

  /** A lower-cased final rune turns an all-capital plural into a Go-style one. */
  lemma LastRuneExamples()
    ensures LastRuneToLower("IDS") == "IDs"
    ensures LastRuneToLower("Titles") == "Titles"
    ensures FirstRuneToLower("StatusID") == "statusID"
  {
    assert LowerChar('S') == 's';
  }

  /** The quoted imports, in order. */
  function Quoted(imports: seq<string>): (q: seq<string>)
    ensures |q| == |imports| && forall i :: 0 <= i < |imports| ==> q[i] == Quote(imports[i])
  {
    seq(|imports|, i requires 0 <= i < |imports| => Quote(imports[i]))
  }

  /** One more line of the import block. */
  lemma ImportsJoinStep(qs: seq<string>, q: string)
    ensures Join(qs + [""], '\n') + q + "\n" == Join(qs + [q] + [""], '\n')
  {
    JoinSnoc(qs + [q], "", '\n');
    if qs == [] {
      assert Join(qs + [""], '\n') == "";
      assert Join(qs + [q], '\n') == q;
    } else {
      JoinSnoc(qs, "", '\n');
      JoinSnoc(qs, q, '\n');
    }
  }

  /** The import block written from an empty buffer is the quoted imports, one per line. */
  lemma {:induction false} ImportsAfterJoin(imports: seq<string>)
    ensures ImportsAfter("", imports) == Join(Quoted(imports) + [""], '\n')
    decreases |imports|
  {
    if imports != [] {
      var n := |imports| - 1;
      ImportsAfterJoin(imports[..n]);
      assert Quoted(imports) == Quoted(imports[..n]) + [Quote(imports[n])];
      ImportsJoinStep(Quoted(imports[..n]), Quote(imports[n]));
    }
  }

  /** Each import lands on a line of its own, quoted, in order. */
  lemma ImportLines(imports: seq<string>)
    ensures Split(ImportsAfter("", imports), '\n') == Quoted(imports) + [""]
  {
    ImportsAfterJoin(imports);
    var parts := Quoted(imports) + [""];
    assert forall p :: p in parts ==> '\n' !in p;
    SplitJoin(parts, '\n');
  }

  class Generator {
    var buf: string
    var err: Option<Error>
    const pkgName: string
    const funcPkgName: string
    const imports: seq<string>
    var pkg: Option<Package>
    const plural: string -> string

    /** NewGenerator: the imports are split on commas and sorted; the buffer starts empty. */
    constructor (pkgName: string, imports: string, funcPkgName: string, plural: string -> string)
      ensures this.pkgName == pkgName && this.funcPkgName == funcPkgName && this.plural == plural
      ensures buf == "" && err == None && pkg == None
      ensures imports == "" ==> this.imports == []
      ensures imports != "" ==> multiset(this.imports) == multiset(Split(imports, ',')) && SortedBy(this.imports, Identity)
    {
      var sorted: seq<string> := [];
      if imports != "" {
        sorted := SortBy(Split(imports, ','), Identity);
      }
      this.pkgName := pkgName;
      this.funcPkgName := funcPkgName;
      this.imports := sorted;
      this.plural := plural;
      buf := "";
      err := None;
      pkg := None;
    }

    function Environment(): Env
      reads this
    {
      Env(pkg, plural, funcPkgName)
    }

    /** UsePackageDir, given the outcome of loading the package. */
    method UsePackageDir(loaded: Result<Package, Error>) returns (e: Option<Error>)
      modifies this
      ensures pkg == (if loaded.Success? then Some(loaded.value) else None)
      ensures err == (if loaded.Success? then None else Some(loaded.error))
      ensures e == err && buf == old(buf)
    {
      if loaded.Success? {
        pkg, err := Some(loaded.value), None;
      } else {
        pkg, err := None, Some(loaded.error);
      }
      return err;
    }

    /** lookupType. */
    function LookupType(s: string): Resolved
      reads this
    {
      Lookup(pkg, s)
    }

    /** SetError: only the first error is recorded. */
    method SetError(e: Option<Error>, msg: seq<string>)
      modifies this
      ensures err == ErrorAfter(old(err), e, msg)
      ensures buf == old(buf) && pkg == old(pkg)
    {
      if e.Some? && err.None? {
        var w := e.value;
        if |msg| > 0 {
          w := Prefix(msg, w);
        }
        err := Some(w);
      }
    }

    /** P: formatted text into the buffer, which cannot fail. */
    method P(s: string)
      modifies this
      ensures buf == old(buf) + s && err == old(err) && pkg == old(pkg)
    {
      buf := buf + s;
      SetError(None, ["printf"]);
    }

    /** L: a newline into the buffer, which cannot fail. */
    method L()
      modifies this
      ensures buf == old(buf) + "\n" && err == old(err) && pkg == old(pkg)
    {
      buf := buf + "\n";
      SetError(None, ["newline"]);
    }

    /** T: a rendered template into the buffer; rendering these templates cannot fail. */
    method T(rendered: string)
      modifies this
      ensures buf == old(buf) + rendered && err == old(err) && pkg == old(pkg)
    {
      buf := buf + rendered;
      SetError(None, ["template"]);
    }

    /** genHead. */
    method GenHead()
      modifies this
      ensures buf == HeadAfter(old(buf), pkgName, imports) && err == old(err) && pkg == old(pkg)
    {
      P(DoNotEdit);
      L();
      P("package " + pkgName);
      L();
      L();
      if |imports| > 0 {
        P("import (");
        L();
        ghost var h := buf;
        for i := 0 to |imports|
          invariant buf == ImportsAfter(h, imports[..i])
          invariant err == old(err) && pkg == old(pkg)
        {
          assert imports[..i + 1][..i] == imports[..i];
          P(Quote(imports[i]));
          L();
        }
        assert imports[..|imports|] == imports;
        P(")");
      }
    }

    method GenType(e: Entity)
      modifies this
      ensures buf == old(buf) + TypeText(e) && err == old(err) && pkg == old(pkg)
    {
      P("type " + e.list + " []" + e.name);
    }

    method GenField(e: Entity, fieldType: string, fieldName: string)
      modifies this
      ensures buf == old(buf) + FieldText(e, LastRuneToLower(plural(fieldName)), fieldType, fieldName)
      ensures err == old(err) && pkg == old(pkg)
    {
      T(FieldText(e, LastRuneToLower(plural(fieldName)), fieldType, fieldName));
    }

    method GenIndex(e: Entity, funcName: string, fieldType: string, fieldName: string)
      modifies this
      ensures buf == old(buf) + IndexText(e, funcName, fieldType, fieldName) && err == old(err) && pkg == old(pkg)
    {
      T(IndexText(e, funcName, fieldType, fieldName));
    }

    method GenUniqueField(e: Entity, fieldType: string, fieldName: string)
      modifies this
      ensures buf == old(buf) + UniqueFieldText(e, LastRuneToLower(plural(fieldName)), fieldType, fieldName)
      ensures err == old(err) && pkg == old(pkg)
    {
      T(UniqueFieldText(e, LastRuneToLower(plural(fieldName)), fieldType, fieldName));
    }

    method GenUniqueFieldSlice(e: Entity, fieldType: string, fieldName: string)
      modifies this
      ensures buf == old(buf) + UniqueFieldSliceText(e, LastRuneToLower(plural(fieldName)), fieldType, fieldName)
      ensures err == old(err) && pkg == old(pkg)
    {
      T(UniqueFieldSliceText(e, LastRuneToLower(plural(fieldName)), fieldType, fieldName));
    }

    method GenMap(method_: string, arg: string, e: Entity, isLower: bool, hasType: bool)
      modifies this
      ensures buf == MapAfter(old(buf), funcPkgName, method_, arg, e, isLower, hasType) && err == old(err) && pkg == old(pkg)
    {
      var s := if isLower then "new" else "New";
      var returnType := e.list;
      if !hasType {
        returnType := "[]" + e.name;
      }
      var inputType := arg;
      if '.' !in arg {
        inputType := inputType + "." + e.name;
      }
      var m := method_;
      if funcPkgName != "" {
        m := funcPkgName + "." + m;
      }
      L();
      P(MapLine(s, e.list, inputType, returnType, m, e.name));
      L();
    }

    /** The converter cases of the switch. */
    method GenConverter(rule: Rule, e: Entity, cr: CustomRule)
      requires ConverterSpelling(cr.name)
      modifies this
      ensures buf == ConverterAfter(old(buf), old(Environment()), rule, e, cr) && err == old(err) && pkg == old(pkg)
    {
      if cr.name == "Map" || cr.name == "MapP" {
        GenMap(cr.name, cr.arg, e, false, rule.baseGen);
      } else if cr.name == "map" {
        GenMap("Map", cr.arg, e, true, rule.baseGen);
      } else {
        GenMap("MapP", cr.arg, e, true, rule.baseGen);
      }
    }

    /** The field cases of the switch. */
    method GenFieldRule(rule: Rule, e: Entity, cr: CustomRule, fields: map<string, string>)
      requires fields == Fields(Environment(), rule.entityName)
      modifies this
      ensures buf == FieldRuleAfter(old(buf), old(Environment()), rule, e, cr) && err == old(err) && pkg == old(pkg)
    {
      var fType := if cr.field in fields then fields[cr.field] else "";
      if cr.name == CustomRuleUnique {
        if HasPrefix(fType, "[]") {
          GenUniqueFieldSlice(e, TrimPrefix(fType, "[]"), cr.field);
        } else {
          GenUniqueField(e, fType, cr.field);
        }
      } else if cr.name == CustomRuleIndex {
        GenIndex(e, "By" + cr.field, fType, cr.field);
      } else if cr.name == "" {
        GenField(e, fType, cr.field);
      }
    }

    /** One pass of the custom-rule loop: the switch, then the newline. */
    method GenCustom(rule: Rule, e: Entity, cr: CustomRule, fields: map<string, string>)
      requires fields == Fields(Environment(), rule.entityName)
      modifies this
      ensures buf == CustomAfter(old(buf), old(Environment()), rule, e, cr) && err == old(err) && pkg == old(pkg)
    {
      if ConverterSpelling(cr.name) {
        GenConverter(rule, e, cr);
      } else {
        GenFieldRule(rule, e, cr, fields);
      }
      L();
    }

    /** The base generation of generateByRule. */
    method GenBase(rule: Rule, e: Entity, fields: map<string, string>)
      requires fields == Fields(Environment(), rule.entityName)
      modifies this
      ensures buf == BaseAfter(old(buf), old(Environment()), rule, e) && err == old(err) && pkg == old(pkg)
    {
      if rule.baseGen {
        GenType(e);
        L();
        if FieldID in fields {
          var idType := fields[FieldID];
          L();
          GenField(e, idType, FieldID);
          L();
          GenIndex(e, "", idType, FieldID);
          L();
        }
      }
    }

    /** generateByRule. */
    method GenerateByRule(rule: Rule) returns (e: Option<Error>)
      modifies this
      ensures (buf, e) == RuleAfter(old(buf), old(Environment()), rule)
      ensures err == old(err) && pkg == old(pkg)
    {
      var fields := TypeMapFromType(LookupType(rule.entityName));
      if |fields| == 0 {
        return Some(Wrap(Sentinel(MissingType), rule.entityName));
      }
      var ent := NewEntity(rule.entityName, rule.useListSuffix, plural);
      GenBase(rule, ent, fields);
      e := GenCustoms(rule, ent, fields);
    }

    /** The custom-rule loop of generateByRule: each rule's text, then its missing-field check. */
    method GenCustoms(rule: Rule, ent: Entity, fields: map<string, string>) returns (e: Option<Error>)
      requires fields == Fields(Environment(), rule.entityName)
      modifies this
      ensures (buf, e) == CustomsAfter(old(buf), old(Environment()), rule, ent, rule.customRules)
      ensures err == old(err) && pkg == old(pkg)
    {
      ghost var goal := CustomsAfter(buf, Environment(), rule, ent, rule.customRules);
      var i := 0;
      while i < |rule.customRules|
        invariant 0 <= i <= |rule.customRules|
        invariant err == old(err) && pkg == old(pkg)
        invariant goal == CustomsAfter(buf, Environment(), rule, ent, rule.customRules[i..])
      {
        var cr := rule.customRules[i];
        assert rule.customRules[i..][0] == cr && rule.customRules[i..][1..] == rule.customRules[i + 1..];
        GenCustom(rule, ent, cr, fields);
        if cr.field !in fields && !IsMapP(cr.name) {
          return Some(Wrap(Sentinel(MissingField), cr.field));
        }
        i := i + 1;
      }
      return None;
    }

    /** Generate: the header, a newline, then every rule until the first failure. */
    method Generate(rules: seq<Rule>) returns (out: Option<string>, e: Option<Error>)
      modifies this
      ensures var r := RulesAfter(HeadAfter(old(buf), pkgName, imports) + "\n", old(Environment()), rules);
        buf == r.0 && (r.1.Some? ==> out == None && e == r.1) && (r.1.None? ==> out == Some(buf) && e == err)
      ensures out.None? <==> RulesError(old(Environment()), rules).Some?
      ensures out.None? ==> e == RulesError(old(Environment()), rules)
      ensures err == old(err) && pkg == old(pkg)
    {
      GenHead();
      L();
      RulesAfterError(buf, Environment(), rules);
      ghost var goal := RulesAfter(buf, Environment(), rules);
      for i := 0 to |rules|
        invariant err == old(err) && pkg == old(pkg)
        invariant goal == RulesAfter(buf, Environment(), rules[i..])
      {
        assert rules[i..][0] == rules[i] && rules[i..][1..] == rules[i + 1..];
        var re := GenerateByRule(rules[i]);
        if re.Some? {
          return None, Some(Wrap(re.value, rules[i].entityName));
        }
      }
      return Some(buf), err;
    }
  }
}
