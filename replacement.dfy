/**
 * The inline replacement engine of pkg/colgen/replacer.go: a `//colgen@`
 * comment names a constructor to generate, either a wrapper embedding an
 * imported type or, in full mode, a struct copying its exported fields with
 * optional JSON tags. Parsing, the field list, the rendered text and the
 * per-rule completion are modelled; finding the imported type is a map lookup.
 */
module Replacement {
  import opened Wrappers
  import opened Strings
  import opened Errors
  import opened Seqs
  import opened Patterns
  import opened FieldModel
  import Generation

  /** Field: one field of a full-mode struct, with its rendered tag. */
  datatype Field = Field(name: string, typ: string, tag: string)

  /** ReplaceRule: the comment found, its replacement text and what was parsed from it. */
  datatype ReplaceRule = ReplaceRule(
    find: string, replace: string,
    cmd: string, entity: string, arg: string, isFull: bool, withJSON: bool,
    fields: seq<Field>)

  const Marker: string := "//colgen@"

  /**
   * A whole line matching `^//colgen@(New|new)(\w+)\(([\w.,]+)\)$` under
   * `(?i)`: the marker and the command in any casing, a word entity name,
   * and a non-empty argument list of words, dots and commas. The three
   * groups are returned as written.
   */
  function MatchReplaceLine(l: string): Option<(string, string, string)>
  {
    var p := IndexOf(l, '(');
    if 12 < p && p + 2 < |l| && l[|l| - 1] == ')'
      && ToLower(l[..9]) == Marker && ToLower(l[9..12]) == "new"
      && AllWord(l[12..p]) && AllArgChars(l[p + 1..|l| - 1])
    then Some((l[9..12], l[12..p], l[p + 1..|l| - 1]))
    else None
  }

  /** The optional flags after the argument: each must be `full` or `json`. */
  function ApplyFlags(r: ReplaceRule, flags: seq<string>): (res: (ReplaceRule, Option<Error>))
    ensures res.1.None? <==> forall i :: 0 <= i < |flags| ==> flags[i] == "full" || flags[i] == "json"
    ensures res.1.None? ==> res.0 == r.(isFull := r.isFull || "full" in flags, withJSON := r.withJSON || "json" in flags)
    ensures res.1.Some? ==> res.1.value.kind == UnknownLine
    ensures res.1.Some? ==> exists i ::
      && 0 <= i < |flags| && flags[i] != "full" && flags[i] != "json"
      && (forall j :: 0 <= j < i ==> flags[j] == "full" || flags[j] == "json")
      && res.1.value == Wrap(Sentinel(UnknownLine), flags[i])
    ensures res.0.find == r.find && res.0.cmd == r.cmd && res.0.entity == r.entity && res.0.arg == r.arg
    decreases |flags|
  {
    if flags == [] then (r, None)
    else
      assert forall i :: 1 <= i < |flags| ==> flags[i] == flags[1..][i - 1];
      assert forall f :: f in flags <==> f == flags[0] || f in flags[1..];
      if flags[0] == "full" then ApplyFlags(r.(isFull := true), flags[1..])
      else if flags[0] == "json" then ApplyFlags(r.(withJSON := true), flags[1..])
      else (r, Some(Wrap(Sentinel(UnknownLine), flags[0])))
  }

  /** The argument, qualified by the entity when it names no package. */
  function Qualify(arg: string, entity: string): (q: string)
    ensures '.' in q && HasPrefix(q, arg)
    ensures '.' in arg ==> q == arg
  {
    if '.' in arg then arg else arg + "." + entity
  }

  /** The flags a directive may carry together. */
  predicate ValidFlags(flags: seq<string>)
  {
    (forall i :: 0 <= i < |flags| ==> flags[i] == "full" || flags[i] == "json")
    && ("json" in flags ==> "full" in flags)
  }

  /** ParseReplaceRule once the expression has matched (or not): the rule as far as it was filled in, and the error if any. */
  function ParseMatched(rule: string, matches: Option<(string, string, string)>): (res: (ReplaceRule, Option<Error>))
    ensures res.0.find == rule
  {
    var blank := ReplaceRule(rule, "", "", "", "", false, false, []);
    match matches
    case None => (blank, Some(Wrap(Sentinel(UnknownLine), rule)))
    case Some(m) =>
      var parts := Split(m.2, ',');
      var f := ApplyFlags(blank.(cmd := m.0, entity := m.1, arg := parts[0]), parts[1..]);
      if f.1.Some? then f
      else if f.0.withJSON && !f.0.isFull then (f.0, Some(Wrap(Sentinel(MissingArg), "full")))
      else (f.0.(arg := Qualify(f.0.arg, f.0.entity), fields := []), None)
  }

  /** ParseReplaceRule: the groups of the first matching line, then the argument list. */
  function ParseReplace(rule: string): (res: (ReplaceRule, Option<Error>))
    ensures res.0.find == rule
  {
    ParseMatched(rule, FindLine(rule, MatchReplaceLine))
  }

  /**
   * A rule parses exactly when some line of it matches and its flags are
   * only `full` and `json`, `json` coming with `full`; the argument is then
   * qualified and the flags are set by their presence.
   */
  lemma ParseReplaceMeaning(rule: string)
    ensures FindLine(rule, MatchReplaceLine).None? ==> ParseReplace(rule).1 == Some(Wrap(Sentinel(UnknownLine), rule))
    ensures ParseReplace(rule).1.None? <==>
      (FindLine(rule, MatchReplaceLine).Some? && ValidFlags(Split(FindLine(rule, MatchReplaceLine).value.2, ',')[1..]))
    ensures ParseReplace(rule).1.None? ==>
      var m := FindLine(rule, MatchReplaceLine).value;
      var parts := Split(m.2, ',');
      ParseReplace(rule).0 == ReplaceRule(rule, "", m.0, m.1, Qualify(parts[0], m.1), "full" in parts[1..], "json" in parts[1..], [])
    ensures FindLine(rule, MatchReplaceLine).Some? ==>
      var flags := Split(FindLine(rule, MatchReplaceLine).value.2, ',')[1..];
      forall i ::
        (&& 0 <= i < |flags| && flags[i] != "full" && flags[i] != "json"
         && (forall j :: 0 <= j < i ==> flags[j] == "full" || flags[j] == "json"))
        ==> ParseReplace(rule).1 == Some(Wrap(Sentinel(UnknownLine), flags[i]))
    ensures FindLine(rule, MatchReplaceLine).Some? ==>
      var flags := Split(FindLine(rule, MatchReplaceLine).value.2, ',')[1..];
      (forall i :: 0 <= i < |flags| ==> flags[i] == "full" || flags[i] == "json") && "json" in flags && "full" !in flags ==>
        ParseReplace(rule).1 == Some(Wrap(Sentinel(MissingArg), "full"))
  {
    var found := FindLine(rule, MatchReplaceLine);
    if found.Some? {
      var m := found.value;
      var parts := Split(m.2, ',');
      var flags := parts[1..];
      var blank := ReplaceRule(rule, "", "", "", "", false, false, []);
      var start := blank.(cmd := m.0, entity := m.1, arg := parts[0]);
      forall i |
        && 0 <= i < |flags| && flags[i] != "full" && flags[i] != "json"
        && (forall j :: 0 <= j < i ==> flags[j] == "full" || flags[j] == "json")
        ensures ParseReplace(rule).1 == Some(Wrap(Sentinel(UnknownLine), flags[i]))
      {
        FirstUnknownFlag(start, flags, i);
      }
    }
  }

  /** The error of a flag list names its first flag that is neither `full` nor `json`. */
  lemma FirstUnknownFlag(r: ReplaceRule, flags: seq<string>, i: nat)
    requires i < |flags| && flags[i] != "full" && flags[i] != "json"
    requires forall j :: 0 <= j < i ==> flags[j] == "full" || flags[j] == "json"
    ensures ApplyFlags(r, flags).1 == Some(Wrap(Sentinel(UnknownLine), flags[i]))
  {
    var k :| && 0 <= k < |flags| && flags[k] != "full" && flags[k] != "json"
      && (forall j :: 0 <= j < k ==> flags[j] == "full" || flags[j] == "json")
      && ApplyFlags(r, flags).1.value == Wrap(Sentinel(UnknownLine), flags[k]);
    assert k == i;
  }

  /** ParseReplaceRule as a result: the rule, or the error alone. */
  function ParseReplaceResult(rule: string): Result<ReplaceRule, Error>
  {
    var p := ParseReplace(rule);
    if p.1.Some? then Failure(p.1.value) else Success(p.0)
  }

  /** ParseReplaceRule. */
  method ParseReplaceRule(rule: string) returns (r: ReplaceRule, err: Option<Error>)
    ensures (r, err) == ParseReplace(rule)
  {
    var matches := FindLine(rule, MatchReplaceLine);
    if matches.None? {
      return ReplaceRule(rule, "", "", "", "", false, false, []), Some(Wrap(Sentinel(UnknownLine), rule));
    }
    r, err := ParseGroups(rule, matches.value);
  }

  /** The rest of ParseReplaceRule: the argument list is walked in order, its first element being the argument. */
  method ParseGroups(rule: string, m: (string, string, string)) returns (r: ReplaceRule, err: Option<Error>)
    ensures (r, err) == ParseMatched(rule, Some(m))
  {
    r := ReplaceRule(rule, "", m.0, m.1, "", false, false, []);
    var args := Split(m.2, ',');
    ghost var start := r.(arg := args[0]);
    for i := 0 to |args|
      invariant i == 0 ==> r == start.(arg := "")
      invariant i > 0 ==> ApplyFlags(start, args[1..]) == ApplyFlags(r, args[i..])
    {
      if i == 0 {
        r := r.(arg := args[0]);
        continue;
      }
      assert args[i..][0] == args[i] && args[i..][1..] == args[i + 1..];
      if args[i] == "full" {
        r := r.(isFull := true);
      } else if args[i] == "json" {
        r := r.(withJSON := true);
      } else {
        return r, Some(Wrap(Sentinel(UnknownLine), args[i]));
      }
    }
    if |args| == 1 {
      assert args[1..] == [];
    } else {
      assert args[|args|..] == [];
    }
    if r.withJSON && !r.isFull {
      return r, Some(Wrap(Sentinel(MissingArg), "full"));
    }
    if '.' !in r.arg {
      r := r.(arg := r.arg + "." + r.entity);
    }
    r := r.(fields := []);
    return r, None;
  }

  /** The Go convention for a failed call returning a slice: nil and the error. */
  function AsPair(r: Result<seq<ReplaceRule>, Error>): (seq<ReplaceRule>, Option<Error>)
  {
    match r
    case Success(v) => (v, None)
    case Failure(e) => ([], Some(e))
  }

  /** ParseReplaceRules: every rule parsed, in order, or the first error and nothing. */
  method ParseReplaceRules(rules: seq<string>) returns (rr: seq<ReplaceRule>, err: Option<Error>)
    ensures (rr, err) == AsPair(MapAll(rules, ParseReplaceResult))
  {
    var res := CollectAll(rules, ParseReplaceResult);
    rr, err := AsPair(res).0, AsPair(res).1;
  }

  /** Marker, command, entity and argument list in that order form a replace directive line. */
  lemma MatchReplaceBuild(marker: string, cmd: string, entity: string, args: string)
    requires ToLower(marker) == Marker && ToLower(cmd) == "new"
    requires entity != [] && AllWord(entity) && args != [] && AllArgChars(args)
    ensures MatchReplaceLine(marker + cmd + entity + "(" + args + ")") == Some((cmd, entity, args))
  {
    var l := marker + cmd + entity + "(" + args + ")";
    var p := 12 + |entity|;
    LowerKeepsOut(marker, '(');
    LowerKeepsOut(cmd, '(');
    assert '(' !in entity by {
      assert forall i :: 0 <= i < |entity| ==> entity[i] != '(';
    }
    assert l[..p] == marker + cmd + entity;
    IndexOfIs(l, '(', p);
    assert l[..9] == marker && l[9..12] == cmd && l[12..p] == entity && l[p + 1..|l| - 1] == args;
  }

  /** A replace directive line is marker, command, entity and argument list in that order. */
  lemma MatchReplaceParts(l: string)
    requires MatchReplaceLine(l).Some?
    ensures var m := MatchReplaceLine(l).value;
      l == l[..9] + m.0 + m.1 + "(" + m.2 + ")"
      && ToLower(l[..9]) == Marker && ToLower(m.0) == "new" && m.1 != [] && AllWord(m.1) && m.2 != [] && AllArgChars(m.2)
  {
    var p := IndexOf(l, '(');
    assert l == l[..9] + l[9..12] + l[12..p] + "(" + l[p + 1..|l| - 1] + ")";
  }

  /** The argument list a directive is written with: the argument, then the flags. */
  function FlagList(full: bool, json: bool): (flags: seq<string>)
    ensures ValidFlags(flags) <==> (json ==> full)
    ensures ("full" in flags <==> full) && ("json" in flags <==> json)
  {
    (if full then ["full"] else []) + (if json then ["json"] else [])
  }

  /** The directive text for a command, entity, argument and flags. */
  function DirectiveText(cmd: string, entity: string, arg: string, full: bool, json: bool): string
  {
    Marker + cmd + entity + "(" + Join([arg] + FlagList(full, json), ',') + ")"
  }

  /** A written argument list is a non-empty run of words, dots and commas that splits back into its pieces. */
  lemma ArgListFacts(arg: string, flags: seq<string>)
    requires arg != [] && AllWordOrDot(arg)
    requires forall f :: f in flags ==> f == "full" || f == "json"
    ensures var s := Join([arg] + flags, ','); s != [] && AllArgChars(s) && Split(s, ',') == [arg] + flags
  {
    var parts := [arg] + flags;
    var s := Join(parts, ',');
    assert forall p :: p in parts ==> AllArgChars(p);
    assert forall p :: p in parts ==> ',' !in p by {
      assert forall i :: 0 <= i < |arg| ==> arg[i] != ',';
    }
    SplitJoin(parts, ',');
    forall i | 0 <= i < |s|
      ensures IsWordChar(s[i]) || s[i] == '.' || s[i] == ','
    {
      JoinRunes(parts, ',', s[i]);
      if s[i] != ',' {
        var p :| p in parts && s[i] in p;
        var j :| 0 <= j < |p| && p[j] == s[i];
      }
    }
    if |parts| > 1 {
      assert s == arg + [','] + Join(parts[1..], ',');
    }
  }

  /** A directive built from word runes and an argument list has no line break. */
  lemma DirectiveOneLine(cmd: string, entity: string, args: string)
    requires |cmd| == 3 && ToLower(cmd) == "new"
    requires AllWord(entity) && AllArgChars(args)
    ensures '\n' !in Marker + cmd + entity + "(" + args + ")"
  {
    assert '\n' !in cmd by { assert forall i :: 0 <= i < |cmd| ==> LowerChar(cmd[i]) == "new"[i]; }
    assert '\n' !in entity by { assert forall i :: 0 <= i < |entity| ==> entity[i] != '\n'; }
    assert '\n' !in args by { assert forall i :: 0 <= i < |args| ==> args[i] != '\n'; }
  }

  /** A directive line with a well-formed argument list is found as the first matching line. */
  lemma FindDirective(cmd: string, entity: string, args: string)
    requires |cmd| == 3 && ToLower(cmd) == "new"
    requires entity != [] && AllWord(entity) && args != [] && AllArgChars(args)
    ensures FindLine(Marker + cmd + entity + "(" + args + ")", MatchReplaceLine) == Some((cmd, entity, args))
  {
    assert ToLower(Marker) == Marker;
    MatchReplaceBuild(Marker, cmd, entity, args);
    DirectiveOneLine(cmd, entity, args);
    FindSingleLine(Marker + cmd + entity + "(" + args + ")", MatchReplaceLine);
  }

  /** A written directive is one line whose match yields its command, entity and argument list. */
  lemma DirectiveMatch(cmd: string, entity: string, arg: string, full: bool, json: bool)
    requires |cmd| == 3 && ToLower(cmd) == "new"
    requires entity != [] && AllWord(entity) && arg != [] && AllWordOrDot(arg)
    ensures var args := Join([arg] + FlagList(full, json), ',');
      FindLine(DirectiveText(cmd, entity, arg, full, json), MatchReplaceLine) == Some((cmd, entity, args))
      && Split(args, ',') == [arg] + FlagList(full, json)
  {
    var args := Join([arg] + FlagList(full, json), ',');
    ArgListFacts(arg, FlagList(full, json));
    FindDirective(cmd, entity, args);
  }

  /**
   * Writing a directive and parsing it back gives the rule it describes:
   * the command as written, the argument qualified, the flags set; `json`
   * without `full` is refused with ErrMissingArg.
   */
  lemma ParseDirectiveText(cmd: string, entity: string, arg: string, full: bool, json: bool)
    requires |cmd| == 3 && ToLower(cmd) == "new"
    requires entity != [] && AllWord(entity) && arg != [] && AllWordOrDot(arg)
    ensures var text := DirectiveText(cmd, entity, arg, full, json);
      ParseReplace(text) == if json && !full
        then (ReplaceRule(text, "", cmd, entity, arg, full, json, []), Some(Wrap(Sentinel(MissingArg), "full")))
        else (ReplaceRule(text, "", cmd, entity, Qualify(arg, entity), full, json, []), None)
  {
    var text := DirectiveText(cmd, entity, arg, full, json);
    var flags := FlagList(full, json);
    DirectiveMatch(cmd, entity, arg, full, json);
    assert ([arg] + flags)[1..] == flags;
    var start := ReplaceRule(text, "", cmd, entity, arg, false, false, []);
    FlagListApplied(start, full, json);
  }

  /** Applying the written flags sets exactly them. */
  lemma FlagListApplied(r: ReplaceRule, full: bool, json: bool)
    ensures ApplyFlags(r, FlagList(full, json)) == (r.(isFull := r.isFull || full, withJSON := r.withJSON || json), None)
  {
  }

  /** The first directive of the replacer's own documentation parses as documented. */
  lemma ParseCallExample()
    ensures ParseReplace("//colgen@NewCall(db)")
      == (ReplaceRule("//colgen@NewCall(db)", "", "New", "Call", "db.Call", false, false, []), None)
  {
    assert DirectiveText("New", "Call", "db", false, false) == "//colgen@NewCall(db)" by {
      assert Join(["db"] + FlagList(false, false), ',') == "db";
    }
    assert AllWord("Call") && AllWordOrDot("db");
    assert Qualify("db", "Call") == "db.Call" by { assert '.' !in "db"; }
    ParseDirectiveText("New", "Call", "db", false, false);
  }

  /** The full-mode directive as written by DirectiveText. */
  lemma UserSummaryText()
    ensures DirectiveText("new", "UserSummary", "dating.User", true, true) == "//colgen@newUserSummary(dating.User,full,json)"
  {
    assert Marker + "new" + "UserSummary" + "(" == "//colgen@newUserSummary(";
    UserSummaryArgs();
  }

  /** The argument list of the full-mode directive. */
  lemma UserSummaryArgs()
    ensures Join(["dating.User"] + FlagList(true, true), ',') == "dating.User,full,json"
  {
    assert ["dating.User"] + FlagList(true, true) == ["dating.User", "full", "json"];
    assert Join(["full", "json"], ',') == "full,json";
  }

  /** The full-mode directive of the replacer's own documentation parses as documented. */
  lemma ParseUserSummaryExample()
    ensures ParseReplace("//colgen@newUserSummary(dating.User,full,json)")
      == (ReplaceRule("//colgen@newUserSummary(dating.User,full,json)", "", "new", "UserSummary", "dating.User", true, true, []), None)
  {
    UserSummaryText();
    assert AllWord("UserSummary") && AllWordOrDot("dating.User");
    assert Qualify("dating.User", "UserSummary") == "dating.User" by { assert "dating.User"[6] == '.'; }
    ParseDirectiveText("new", "UserSummary", "dating.User", true, true);
  }

  const FieldID: string := "ID"

  /**
   * The JSON key of a full-mode field: a field named ID stands for the
   * entity's own id, the first rune is lowered, and a trailing `ID` is
   * lowered to `Id`. Every rune in between is kept.
   */
  function JSONKey(entity: string, name: string): (k: string)
    ensures !HasSuffix(k, "ID")
    ensures var t := if name == FieldID then entity + "Id" else name;
      && |k| == |t|
      && (t != [] ==> k[0] == LowerChar(t[0]))
      && (forall i :: 0 < i < |t| - 1 ==> k[i] == t[i])
      && (|t| >= 2 ==> k[|t| - 1] == if |t| > 2 && HasSuffix(t, "ID") then 'd' else t[|t| - 1])
  {
    var t := if name == FieldID then entity + "Id" else name;
    var t1 := Generation.FirstRuneToLower(t);
    assert |t| > 2 ==> t1[|t| - 2..] == t[1..][|t| - 3..];
    if HasSuffix(t1, "ID") then Generation.LastRuneToLower(t1) else t1
  }

  lemma StatusKeyExample()
    ensures JSONKey("UserSummary", "StatusID") == "statusId"
  {
    assert HasSuffix(Generation.FirstRuneToLower("StatusID"), "ID");
  }

  lemma IdKeyExample()
    ensures JSONKey("UserSummary", "ID") == "userSummaryId"
  {
    var t := "UserSummary" + "Id";
    var t1 := Generation.FirstRuneToLower(t);
    assert t1[|t1| - 1] == 'd';
    assert t1 == "userSummaryId" by {
      assert [LowerChar('U')] == "u";
    }
  }

  /** The struct tag of a full-mode field: a quoted `json` key when JSON tags are asked for, else none. */
  function Tag(r: ReplaceRule, name: string): string
  {
    if r.withJSON then "`json:" + Quote(JSONKey(r.entity, name)) + "`" else ""
  }

  /** A word rune needs no escape. */
  lemma {:induction false} EscapeWord(s: string)
    requires AllWord(s)
    ensures Escape(s) == s
  {
    if s != [] {
      EscapeWord(s[1..]);
    }
  }

  /** Lowering keeps a word rune a word rune. */
  lemma LowerWord(c: char)
    requires IsWordChar(c)
    ensures IsWordChar(LowerChar(c))
  {
  }

  /** The key of identifier names is an identifier. */
  lemma KeyOfWords(entity: string, name: string)
    requires AllWord(entity) && AllWord(name)
    ensures AllWord(JSONKey(entity, name))
  {
    var t := if name == FieldID then entity + "Id" else name;
    var k := JSONKey(entity, name);
    assert AllWord(t);
    forall i | 0 <= i < |k|
      ensures IsWordChar(k[i])
    {
      if i == 0 {
        LowerWord(t[0]);
      } else if i < |t| - 1 {
        assert IsWordChar(t[i]);
      } else {
        assert IsWordChar(t[i]);
      }
    }
  }

  /** For identifier names, the tag is the key in plain double quotes. */
  lemma TagOfWords(r: ReplaceRule, name: string)
    requires r.withJSON && AllWord(r.entity) && AllWord(name)
    ensures Tag(r, name) == "`json:" + "\"" + JSONKey(r.entity, name) + "\"" + "`"
  {
    KeyOfWords(r.entity, name);
    EscapeWord(JSONKey(r.entity, name));
  }

  /** The field a full-mode struct declares for a field of the imported type. */
  function FieldOf(r: ReplaceRule, f: EntityField): Field
  {
    Field(f.name, f.typ, Tag(r, f.name))
  }

  function FieldsOf(r: ReplaceRule, fs: seq<EntityField>): seq<Field>
  {
    seq(|fs|, i requires 0 <= i < |fs| => FieldOf(r, fs[i]))
  }

  function Exported(f: EntityField): bool
  {
    f.exported
  }

  /** newFields: nothing unless in full mode, else the exported fields in order, each with its tag. */
  function NewFieldsSpec(r: ReplaceRule, fields: seq<EntityField>): seq<Field>
  {
    if !r.isFull then [] else FieldsOf(r, Filter(fields, Exported, true))
  }

  /**
   * In full mode, every exported field and only those are declared, with
   * the name and short type of the imported field; tags are empty unless
   * JSON tags are asked for.
   */
  lemma NewFieldsMeaning(r: ReplaceRule, fields: seq<EntityField>)
    ensures !r.isFull ==> NewFieldsSpec(r, fields) == []
    ensures r.isFull ==> |NewFieldsSpec(r, fields)| <= |fields|
    ensures r.isFull ==> forall i :: 0 <= i < |fields| && fields[i].exported ==>
      FieldOf(r, fields[i]) in NewFieldsSpec(r, fields)
    ensures forall g :: g in NewFieldsSpec(r, fields) ==>
      exists f :: f in fields && f.exported && g == FieldOf(r, f)
    ensures !r.withJSON ==> forall g :: g in NewFieldsSpec(r, fields) ==> g.tag == ""
  {
    var ex := Filter(fields, Exported, true);
    if r.isFull {
      forall i | 0 <= i < |fields| && fields[i].exported
        ensures FieldOf(r, fields[i]) in NewFieldsSpec(r, fields)
      {
        FilterKeeps(fields, Exported, i);
        var j :| 0 <= j < |ex| && ex[j] == fields[i];
        assert NewFieldsSpec(r, fields)[j] == FieldOf(r, fields[i]);
      }
      forall g | g in NewFieldsSpec(r, fields)
        ensures exists f :: f in fields && f.exported && g == FieldOf(r, f)
      {
        var j :| 0 <= j < |ex| && NewFieldsSpec(r, fields)[j] == g;
        assert ex[j] in ex;
      }
    }
  }

  lemma FieldsOfSnoc(r: ReplaceRule, fs: seq<EntityField>, f: EntityField)
    ensures FieldsOf(r, fs + [f]) == FieldsOf(r, fs) + [FieldOf(r, f)]
  {
  }

  /** The tag newFields writes for one field. */
  method TagFor(r: ReplaceRule, name: string) returns (tag: string)
    ensures tag == Tag(r, name)
  {
    tag := "";
    if r.withJSON {
      var t := name;
      if name == FieldID {
        t := r.entity + "Id";
      }
      t := Generation.FirstRuneToLower(t);
      if HasSuffix(t, "ID") {
        t := Generation.LastRuneToLower(t);
      }
      tag := "`json:" + Quote(t) + "`";
    }
  }

  /** newFields: the exported fields are copied in order, the tag written for each. */
  method NewFields(r: ReplaceRule, fields: seq<EntityField>) returns (ff: seq<Field>)
    ensures ff == NewFieldsSpec(r, fields)
  {
    if !r.isFull {
      return [];
    }
    ff := [];
    for i := 0 to |fields|
      invariant ff == FieldsOf(r, Filter(fields[..i], Exported, true))
    {
      var f := fields[i];
      ghost var ex := Filter(fields[..i], Exported, true);
      assert fields[..i + 1][..i] == fields[..i];
      FilterSnoc(fields[..i + 1], Exported, true);
      if !f.exported {
        continue;
      }
      var tag := TagFor(r, f.name);
      FieldsOfSnoc(r, ex, f);
      ff := ff + [Field(f.name, f.typ, tag)];
    }
    assert fields[..|fields|] == fields;
  }

  /** One struct line per declared field in full mode, else the embedded argument type. */
  function StructLines(r: ReplaceRule): (ls: seq<string>)
    ensures |ls| == if r.isFull then |r.fields| else 1
  {
    if r.isFull then seq(|r.fields|, i requires 0 <= i < |r.fields| =>
      "    " + r.fields[i].name + " " + r.fields[i].typ + " " + r.fields[i].tag)
    else ["    " + r.arg]
  }

  /** One copied field per line in full mode, else the whole embedded value. */
  function ValueLines(r: ReplaceRule): (ls: seq<string>)
    ensures |ls| == if r.isFull then |r.fields| else 1
  {
    if r.isFull then seq(|r.fields|, i requires 0 <= i < |r.fields| =>
      "        " + r.fields[i].name + ": in." + r.fields[i].name + ",")
    else ["        " + r.entity + ": *in,"]
  }

  /** The lines of the replacement template (replacer.go), the first and the last empty. */
  function RenderLines(r: ReplaceRule): seq<string>
  {
    ["", "type " + r.entity + " struct { "] + StructLines(r)
    + ["}", "", "func " + r.cmd + r.entity + "(in *" + r.arg + ") *" + r.entity + " {",
       "\tif in == nil {", "\t\treturn nil", "\t}", "", "\treturn &" + r.entity + "{ "]
    + ValueLines(r) + ["\t}", "}", ""]
  }

  /** generateByRule: the template rendered for the rule. */
  function Render(r: ReplaceRule): string
  {
    Join(RenderLines(r), '\n')
  }

  predicate OneLine(s: string)
  {
    '\n' !in s
  }

  predicate AllOneLine(ls: seq<string>)
  {
    forall l :: l in ls ==> OneLine(l)
  }

  /** The parts a rule contributes to the rendered text hold no line break. */
  predicate RuleOneLine(r: ReplaceRule)
  {
    OneLine(r.cmd) && OneLine(r.entity) && OneLine(r.arg)
    && forall f :: f in r.fields ==> OneLine(f.name) && OneLine(f.typ) && OneLine(f.tag)
  }

  lemma OneLineConcat(a: string, b: string)
    requires OneLine(a) && OneLine(b)
    ensures OneLine(a + b)
  {
  }

  lemma StructLinesOneLine(r: ReplaceRule)
    requires RuleOneLine(r)
    ensures AllOneLine(StructLines(r))
  {
    forall i | 0 <= i < |StructLines(r)|
      ensures OneLine(StructLines(r)[i])
    {
      if r.isFull {
        var f := r.fields[i];
        assert f in r.fields;
        OneLineConcat("    " + f.name + " " + f.typ + " ", f.tag);
      }
    }
  }

  lemma ValueLinesOneLine(r: ReplaceRule)
    requires RuleOneLine(r)
    ensures AllOneLine(ValueLines(r))
  {
    forall i | 0 <= i < |ValueLines(r)|
      ensures OneLine(ValueLines(r)[i])
    {
      if r.isFull {
        var f := r.fields[i];
        assert f in r.fields;
        OneLineConcat("        " + f.name + ": in.", f.name + ",");
      }
    }
  }

  lemma FixedLinesOneLine(r: ReplaceRule)
    requires RuleOneLine(r)
    ensures AllOneLine(["", "type " + r.entity + " struct { "])
    ensures AllOneLine(["}", "", "func " + r.cmd + r.entity + "(in *" + r.arg + ") *" + r.entity + " {",
       "\tif in == nil {", "\t\treturn nil", "\t}", "", "\treturn &" + r.entity + "{ "])
    ensures AllOneLine(["\t}", "}", ""])
  {
  }

  lemma AllOneLineConcat(a: seq<string>, b: seq<string>)
    requires AllOneLine(a) && AllOneLine(b)
    ensures AllOneLine(a + b)
  {
  }

  /**
   * When no name, type or tag holds a line break, the rendered text has
   * exactly the template's lines: the struct with one line per field (or
   * the embedded argument), then the constructor that returns nil for a
   * nil input and otherwise copies every field (or embeds the value).
   */
  lemma RenderLinesBack(r: ReplaceRule)
    requires RuleOneLine(r)
    ensures Split(Render(r), '\n') == RenderLines(r)
    ensures |RenderLines(r)| == 13 + (if r.isFull then 2 * |r.fields| else 2)
  {
    StructLinesOneLine(r);
    ValueLinesOneLine(r);
    FixedLinesOneLine(r);
    var a := ["", "type " + r.entity + " struct { "];
    var b := ["}", "", "func " + r.cmd + r.entity + "(in *" + r.arg + ") *" + r.entity + " {",
       "\tif in == nil {", "\t\treturn nil", "\t}", "", "\treturn &" + r.entity + "{ "];
    var c := ["\t}", "}", ""];
    AllOneLineConcat(a, StructLines(r));
    AllOneLineConcat(a + StructLines(r), b);
    AllOneLineConcat(a + StructLines(r) + b, ValueLines(r));
    AllOneLineConcat(a + StructLines(r) + b + ValueLines(r), c);
    SplitJoin(RenderLines(r), '\n');
  }

  /** Without full mode the rendered struct embeds the argument type and the constructor wraps the value. */
  lemma RenderEmbedding(r: ReplaceRule)
    requires !r.isFull
    ensures RenderLines(r) == ["", "type " + r.entity + " struct { ", "    " + r.arg, "}", "",
      "func " + r.cmd + r.entity + "(in *" + r.arg + ") *" + r.entity + " {", "\tif in == nil {", "\t\treturn nil", "\t}", "",
      "\treturn &" + r.entity + "{ ", "        " + r.entity + ": *in,", "\t}", "}", ""]
  {
  }

  /** The embedding wrapper expected for `//colgen@NewCall(db)` (replacer_test.go), line by line. */
  lemma RenderCallExample()
    ensures RenderLines(ReplaceRule("//colgen@NewCall(db)", "", "New", "Call", "db.Call", false, false, []))
      == ["", "type Call struct { ", "    db.Call", "}", "",
          "func NewCall(in *db.Call) *Call {", "\tif in == nil {", "\t\treturn nil", "\t}", "",
          "\treturn &Call{ ", "        Call: *in,", "\t}", "}", ""]
  {
    RenderEmbedding(ReplaceRule("//colgen@NewCall(db)", "", "New", "Call", "db.Call", false, false, []));
    assert "type " + "Call" + " struct { " == "type Call struct { ";
    assert "    " + "db.Call" == "    db.Call";
    assert "\treturn &" + "Call" + "{ " == "\treturn &Call{ ";
    assert "        " + "Call" + ": *in," == "        Call: *in,";
    assert "func " + "New" + "Call" + "(in *" + "db.Call" + ") *" + "Call" + " {" == "func NewCall(in *db.Call) *Call {";
  }

  lemma IdTagExample()
    ensures Tag(ReplaceRule("", "", "new", "UserSummary", "db.User", true, true, []), "ID") == "`json:\"userSummaryId\"`"
  {
    assert "`json:" + "\"" + "userSummaryId" + "\"" + "`" == "`json:\"userSummaryId\"`";
    assert AllWord("UserSummary") && AllWord("ID");
    IdKeyExample();
    TagOfWords(ReplaceRule("", "", "new", "UserSummary", "db.User", true, true, []), "ID");
  }

  lemma ExportedExample(fields: seq<EntityField>)
    requires |fields| == 2 && fields[0].exported && !fields[1].exported
    ensures Filter(fields, Exported, true) == [fields[0]]
  {
    assert fields[..1] == [fields[0]];
    assert Filter(fields[..1], Exported, true) == [fields[0]];
  }

  /** Full mode with JSON tags: the id field gets the entity's key, an unexported field is dropped. */
  lemma NewFieldsExample()
    ensures NewFieldsSpec(ReplaceRule("", "", "new", "UserSummary", "db.User", true, true, []),
      [EntityField("ID", "int", "int", true, 0), EntityField("salt", "string", "string", false, 0)])
      == [Field("ID", "int", "`json:\"userSummaryId\"`")]
  {
    var r := ReplaceRule("", "", "new", "UserSummary", "db.User", true, true, []);
    var fields := [EntityField("ID", "int", "int", true, 0), EntityField("salt", "string", "string", false, 0)];
    ExportedExample(fields);
    IdTagExample();
    assert FieldsOf(r, [fields[0]]) == [FieldOf(r, fields[0])];
  }

  /** The imported types a package resolves, keyed by the qualified name the directive writes. */
  type Imports = map<string, seq<RawField>>

  /** findImportedType: no package, or a name it does not know, resolves to nothing. */
  function FindImported(pkg: Option<Imports>, fullTypeName: string): (t: Resolved)
    ensures t.Some? <==> pkg.Some? && fullTypeName in pkg.value
    ensures t.Some? ==> t.value == pkg.value[fullTypeName]
  {
    if pkg.None? || fullTypeName !in pkg.value then None else Some(pkg.value[fullTypeName])
  }

  /**
   * One pass of the Generate loop: a full rule takes the fields of its
   * argument type and fails when that type has none; then the text is rendered.
   */
  function Complete(pkg: Option<Imports>, r: ReplaceRule): (c: Result<ReplaceRule, Error>)
    ensures c.Failure? <==> r.isFull && TypeSlice(FindImported(pkg, r.arg)) == []
    ensures c.Failure? ==> c.error == Wrap(Sentinel(MissingType), r.arg)
    ensures c.Success? ==> c.value.replace == Render(c.value)
    ensures c.Success? ==> c.value.(replace := r.replace, fields := r.fields) == r
    ensures c.Success? ==> c.value.fields == if r.isFull then NewFieldsSpec(r, TypeSlice(FindImported(pkg, r.arg))) else r.fields
  {
    if r.isFull then
      var fields := TypeSlice(FindImported(pkg, r.arg));
      if |fields| == 0 then Failure(Wrap(Sentinel(MissingType), r.arg))
      else
        var r1 := r.(fields := NewFieldsSpec(r, fields));
        Success(r1.(replace := Render(r1)))
    else Success(r.(replace := Render(r)))
  }

  function Completer(pkg: Option<Imports>): ReplaceRule -> Result<ReplaceRule, Error>
  {
    r => Complete(pkg, r)
  }

  /** Replacer.Generate: every rule parsed, then completed in order; the first error wins and yields nothing. */
  function GenerateSpec(pkg: Option<Imports>, rules: seq<string>): Result<seq<ReplaceRule>, Error>
  {
    match MapAll(rules, ParseReplaceResult)
    case Failure(e) => Failure(e)
    case Success(ps) => MapAll(ps, Completer(pkg))
  }

  /**
   * A successful run keeps one rule per comment, in order, each finding its
   * comment verbatim and replacing it with its own rendering.
   */
  lemma GenerateMeaning(pkg: Option<Imports>, rules: seq<string>)
    requires GenerateSpec(pkg, rules).Success?
    ensures var rr := GenerateSpec(pkg, rules).value;
      |rr| == |rules| && forall i :: 0 <= i < |rr| ==> rr[i].find == rules[i] && rr[i].replace == Render(rr[i])
  {
    var ps := MapAll(rules, ParseReplaceResult).value;
    var rr := GenerateSpec(pkg, rules).value;
    forall i | 0 <= i < |rr|
      ensures rr[i].find == rules[i] && rr[i].replace == Render(rr[i])
    {
      assert ParseReplaceResult(rules[i]).Success?;
      assert ps[i] == ParseReplaceResult(rules[i]).value;
      assert Completer(pkg)(ps[i]) == Complete(pkg, ps[i]);
    }
  }

  /** Replacer: the loaded package, if any. */
  class Replacer {
    var pkg: Option<Imports>

    /** NewReplacer: no package loaded yet. */
    constructor ()
      ensures pkg == None
    {
      pkg := None;
    }

    /** UsePackageDir, given the outcome of loading the package: a failed load leaves no package. */
    method UsePackageDir(loaded: Result<Imports, Error>) returns (err: Option<Error>)
      modifies this
      ensures pkg == (if loaded.Success? then Some(loaded.value) else None)
      ensures err == (if loaded.Success? then None else Some(loaded.error))
    {
      if loaded.Success? {
        pkg, err := Some(loaded.value), None;
      } else {
        pkg, err := None, Some(loaded.error);
      }
    }

    /** The body of the Generate loop for one rule: its fields in full mode, then its text. */
    method CompleteRule(r: ReplaceRule) returns (c: Result<ReplaceRule, Error>)
      ensures c == Completer(pkg)(r)
    {
      assert Completer(pkg)(r) == Complete(pkg, r);
      var r1 := r;
      if r.isFull {
        var fields := TypeSliceFromType(FindImported(pkg, r.arg));
        if |fields| == 0 {
          return Failure(Wrap(Sentinel(MissingType), r.arg));
        }
        var ff := NewFields(r, fields);
        r1 := r.(fields := ff);
      }
      var text := Render(r1);
      return Success(r1.(replace := text));
    }

    /** Replacer.Generate: the rules are parsed, then completed in place one by one. */
    method Generate(rules: seq<string>) returns (rr: seq<ReplaceRule>, err: Option<Error>)
      ensures (rr, err) == AsPair(GenerateSpec(pkg, rules))
    {
      var ps;
      ps, err := ParseReplaceRules(rules);
      if err.Some? {
        return [], err;
      }
      rr, err := CompleteAll(ps);
    }

    /** The Generate loop: each parsed rule is overwritten by its completion; the first failure yields nothing. */
    method CompleteAll(ps: seq<ReplaceRule>) returns (rr: seq<ReplaceRule>, err: Option<Error>)
      ensures (rr, err) == AsPair(MapAll(ps, Completer(pkg)))
    {
      rr := ps;
      for i := 0 to |rr|
        invariant |rr| == |ps| && rr[i..] == ps[i..]
        invariant MapAll(ps[..i], Completer(pkg)) == Success(rr[..i])
      {
        var c := CompleteRule(rr[i]);
        if c.Failure? {
          MapAllStop(ps, Completer(pkg), i);
          return [], Some(c.error);
        }
        MapAllPrefixStep(ps, i, Completer(pkg), rr[..i]);
        OverwriteStep(rr, i, c.value);
        rr := rr[i := c.value];
      }
      assert ps[..|ps|] == ps && rr[..|rr|] == rr;
      err := None;
    }
  }
}
