/**
 The directory of rule files (services/api/rule_store.py): loading, saving and switching rules.  A file
 holds the rule that was written to it; YAML itself is not modelled.
 */
module RuleStore {
  import opened Wrappers
  import opened Text
  import opened RuleValidate

  /** `stem.yml`, or `stem.yaml`. */
  datatype File = File(stem: string, yaml: bool)

  type Files = map<File, Rule>

  /** A rule as loaded: its id defaults to the file's stem, and it is on unless it says otherwise. */
  function Load(f: File, r: Rule): Rule {
    r.(id := Or(r.id, f.stem), enabled := Some(r.enabled.GetOr(true)))
  }

  /** The rule is the file's, but for an id or a flag it does not have: the id is then the file's name, and the
      rule is on. */
  ghost predicate IsLoaded(f: File, written: Rule, r: Rule) {
    && r == written.(id := r.id, enabled := r.enabled)
    && r.id == (if written.id == "" then f.stem else written.id)
    && r.enabled == Some(written.enabled.None? || written.enabled.value)
  }

  datatype StoreError = Invalid | Conflict | NotFound

  // ---------------------------------------------------------------- the order of loading

  /** The order of Python's strings. */
  predicate LexLess(a: string, b: string) {
    b != "" && (a == "" || a[0] < b[0] || (a[0] == b[0] && LexLess(a[1..], b[1..])))
  }

  lemma {:induction false} LexTotal(a: string, b: string)
    ensures a == b || LexLess(a, b) || LexLess(b, a)
    ensures !(LexLess(a, b) && LexLess(b, a)) && !LexLess(a, a)
  {
    if a != "" && b != "" {
      LexTotal(a[1..], b[1..]);
      assert a == [a[0]] + a[1..] && b == [b[0]] + b[1..];
    }
    if a != "" {
      LexTotal(a[1..], a[1..]);
    }
  }

  lemma {:induction false} LexTransitive(a: string, b: string, c: string)
    requires LexLess(a, b) && LexLess(b, c)
    ensures LexLess(a, c)
  {
    if a != "" && a[0] == b[0] == c[0] {
      LexTransitive(a[1..], b[1..], c[1..]);
    }
  }

  function FileName(f: File): string {
    f.stem + if f.yaml then ".yaml" else ".yml"
  }

  /** `f` is loaded before `g`: .yml files come before .yaml files, each kind sorted by name. */
  predicate Earlier(f: File, g: File) {
    if f.yaml != g.yaml then g.yaml else LexLess(FileName(f), FileName(g))
  }

  lemma {:induction false} LexReads(common: string, a: string, b: string)
    ensures b != "" && (a == "" || a[0] < b[0]) ==> LexLess(common + a, common + b)
  {
    if common == "" {
      assert common + a == a && common + b == b;
    } else {
      assert (common + a)[1..] == common[1..] + a && (common + b)[1..] == common[1..] + b;
      LexReads(common[1..], a, b);
    }
  }

  /** Every .yml file is loaded before every .yaml file; of two of a kind, the one whose name has the smaller
      character where they first differ. */
  lemma OrderOfFiles(f: File, g: File, common: string, a: string, b: string)
    ensures !f.yaml && g.yaml ==> Earlier(f, g)
    ensures var suffix := if f.yaml then ".yaml" else ".yml";
            f.yaml == g.yaml && f.stem + suffix == common + a && g.stem + suffix == common + b && b != "" && (a == "" || a[0] < b[0]) ==>
              Earlier(f, g)
  {
    LexReads(common, a, b);
  }

  lemma EarlierTotal(f: File, g: File)
    ensures f == g || Earlier(f, g) || Earlier(g, f)
    ensures !(Earlier(f, g) && Earlier(g, f))
  {
    LexTotal(FileName(f), FileName(g));
    var suffix := if f.yaml then ".yaml" else ".yml";
    if f.yaml == g.yaml && FileName(f) == FileName(g) {
      assert |f.stem| == |g.stem| && (f.stem + suffix)[..|f.stem|] == f.stem && (g.stem + suffix)[..|g.stem|] == g.stem;
    }
  }

  lemma EarlierTransitive(f: File, g: File, h: File)
    requires Earlier(f, g) && Earlier(g, h)
    ensures Earlier(f, h)
  {
    if f.yaml == g.yaml == h.yaml {
      LexTransitive(FileName(f), FileName(g), FileName(h));
    }
  }

  /** The rule in the file has the id, case apart. */
  predicate HasId(files: Files, f: File, id: string)
    requires f in files
  {
    Lower(Load(f, files[f]).id) == id
  }

  /** `f` is the first file, in the order of loading, whose rule has the id. */
  ghost predicate FirstWithId(files: Files, id: string, f: File) {
    f in files && HasId(files, f, id) && forall g :: g in files && HasId(files, g, id) && g != f ==> Earlier(f, g)
  }

  lemma OnlyOneFirst(files: Files, id: string, f: File, g: File)
    requires FirstWithId(files, id, f) && FirstWithId(files, id, g)
    ensures f == g
  {
    EarlierTotal(f, g);
  }

  // ---------------------------------------------------------------- saving and switching

  /** What switching the rule of file `f` saves, if it is valid. */
  function Switching(files: Files, f: File, enabled: bool): Checked<Rule>
    requires f in files
  {
    Validate(Load(f, files[f]).(enabled := Some(enabled)))
  }

  /** The files after switching the rule of file `f`: what is saved goes to the .yml file of its id. */
  function Switched(files: Files, f: File, enabled: bool): Files
    requires f in files
  {
    match Switching(files, f, enabled)
    case Ok(rule) => files[File(rule.id, false) := rule]
    case Err(_) => files
  }

  lemma NoneFirst(files: Files, id: string)
    ensures (forall f :: f in files ==> !HasId(files, f, id)) ==> forall f :: !FirstWithId(files, id, f)
  {
  }

  lemma FirstIsThere(files: Files, id: string, f: File)
    requires FirstWithId(files, id, f)
    ensures f in files && HasId(files, f, id)
  {
  }

  class RuleDirectory {
    var files: Files

    /** The first rule loaded with the id, case apart. */
    method GetRule(ruleId: string) returns (r: Option<Rule>)
      ensures r.None? <==> forall f :: f in files ==> !HasId(files, f, Lower(Strip(ruleId)))
      ensures r.Some? ==> exists f :: FirstWithId(files, Lower(Strip(ruleId)), f) && IsLoaded(f, files[f], r.value)
    {
      var first := FindFile(ruleId);
      return if first.None? then None else Some(Load(first.value, files[first.value]));
    }

    /** Its file. */
    method FindFile(ruleId: string) returns (first: Option<File>)
      ensures first.None? <==> forall f :: f in files ==> !HasId(files, f, Lower(Strip(ruleId)))
      ensures first.Some? ==> FirstWithId(files, Lower(Strip(ruleId)), first.value)
    {
      hide Lower, Strip, Load, Earlier;
      var id := Lower(Strip(ruleId));
      first := None;
      var todo := files.Keys;
      while todo != {}
        invariant todo <= files.Keys
        invariant first.None? ==> forall f :: f in files.Keys - todo ==> !HasId(files, f, id)
        invariant first.Some? ==>
                    && first.value in files.Keys - todo && HasId(files, first.value, id)
                    && forall g :: g in files.Keys - todo && HasId(files, g, id) && g != first.value ==> Earlier(first.value, g)
        decreases todo
      {
        var f :| f in todo;
        if HasId(files, f, id) && (first.None? || Earlier(f, first.value)) {
          ghost var was := first;
          forall g | g in files.Keys - todo && HasId(files, g, id) && was.Some? ensures Earlier(f, g) {
            if g != was.value {
              EarlierTransitive(f, was.value, g);
            }
          }
          first := Some(f);
        } else if first.Some? {
          EarlierTotal(first.value, f);
        }
        todo := todo - {f};
      }
    }

    /** Write a validated rule to the file named by its id. */
    method SaveRule(data: Rule, overwrite: bool) returns (r: Result<Rule, StoreError>)
      modifies this
      ensures r.Ok? <==> Validate(data).Ok? && (overwrite || File(Validate(data).value.id, false) !in old(files))
      ensures r.Ok? ==> r.value == Validate(data).value && files == old(files)[File(r.value.id, false) := r.value]
      ensures r.Err? ==> files == old(files) && r.error == if Validate(data).Err? then Invalid else Conflict
    {
      var rule := ValidateRulePayload(data);
      if rule.Err? {
        return Err(Invalid);
      }
      var f := File(rule.value.id, false);
      if f in files && !overwrite {
        return Err(Conflict);
      }
      files := files[f := rule.value];
      return Ok(rule.value);
    }

    /** Switch the first rule with the id, whatever the directory holds; a rule that is not there, or that
        validation refuses, is an error and changes nothing. */
    method SetRuleEnabled(ruleId: string, enabled: bool) returns (r: Result<Rule, StoreError>)
      modifies this
      ensures (forall f :: f in old(files) ==> !HasId(old(files), f, Lower(Strip(ruleId)))) ==> r == Err(NotFound) && files == old(files)
      ensures forall f :: FirstWithId(old(files), Lower(Strip(ruleId)), f) ==>
                && files == Switched(old(files), f, enabled)
                && r == match Switching(old(files), f, enabled)
                        case Ok(rule) => Ok(rule)
                        case Err(_) => Err(Invalid)
    {
      hide Validate, Load, HasId, FirstWithId;
      var existing := FindFile(ruleId);
      if existing.None? {
        assert forall f :: !FirstWithId(files, Lower(Strip(ruleId)), f) by { NoneFirst(files, Lower(Strip(ruleId))); }
        return Err(NotFound);
      }
      var f := existing.value;
      assert f in files by { FirstIsThere(files, Lower(Strip(ruleId)), f); }
      forall g | FirstWithId(files, Lower(Strip(ruleId)), g) ensures f == g {
        OnlyOneFirst(files, Lower(Strip(ruleId)), f, g);
      }
      r := SaveRule(Load(f, files[f]).(enabled := Some(enabled)), true);
      assert exists g :: g in old(files) && HasId(old(files), g, Lower(Strip(ruleId))) by {
        FirstIsThere(old(files), Lower(Strip(ruleId)), f);
      }
    }
  }

  // ---------------------------------------------------------------- when one flag of one file changes

  /** A .yml file named by the id of its rule, which validation leaves alone once its flag is given. */
  ghost predicate TidyFile(f: File, r: Rule) {
    !f.yaml && r.id == f.stem && Validate(r.(enabled := Some(true))) == Ok(r.(enabled := Some(true)))
  }

  /** All files are tidy, and say whether their rule is on. */
  ghost predicate Tidy(files: Files) {
    forall f :: f in files ==> TidyFile(f, files[f]) && files[f].enabled.Some?
  }

  /** The files with one rule switched. */
  function Switch(files: Files, id: string, enabled: bool): Files {
    var f := File(id, false);
    if f in files then files[f := files[f].(enabled := Some(enabled))] else files
  }

  lemma SwitchedNormal(r: Rule, enabled: bool)
    requires Normal(r)
    ensures Normal(r.(enabled := Some(enabled)))
  {
    hide ValidId, NormalMitre, NormalMatch, NormalSteps, Cleaned, IsSlug;
  }

  /** A rule validation leaves alone is still left alone with its flag switched. */
  lemma SwitchedStaysFixed(r: Rule, enabled: bool)
    requires Validate(r) == Ok(r)
    ensures Validate(r.(enabled := Some(enabled))) == Ok(r.(enabled := Some(enabled)))
  {
    hide Validate, Normal;
    var s := r.(enabled := Some(enabled));
    ValidatedIsNormal(r);
    SwitchedNormal(r, enabled);
    ValidateNormal(r);
    ValidateNormal(s);
  }

  lemma NormalFacts(r: Rule)
    requires Normal(r)
    ensures Lower(r.id) == r.id && r.id != "" && r.enabled.Some?
  {
    hide NormalKind, NormalMitre, Cleaned;
  }

  lemma TidyLoads(f: File, r: Rule)
    requires TidyFile(f, r)
    ensures Lower(r.id) == r.id == f.stem != "" && Load(f, r).id == r.id
    ensures forall enabled :: Load(f, r).(enabled := Some(enabled)) == r.(enabled := Some(enabled))
  {
    hide Validate, Normal;
    var on := r.(enabled := Some(true));
    ValidatedIsNormal(on);
    NormalFacts(on);
  }

  lemma TidySwitches(files: Files, f: File, enabled: bool)
    requires f in files && TidyFile(f, files[f])
    ensures Switching(files, f, enabled) == Ok(files[f].(enabled := Some(enabled)))
    ensures Switched(files, f, enabled) == files[f := files[f].(enabled := Some(enabled))]
  {
    hide Validate;
    TidyLoads(f, files[f]);
    SwitchedStaysFixed(files[f].(enabled := Some(true)), enabled);
  }

  lemma IdGiven(f: File, r: Rule, enabled: bool)
    requires Normal(r.(enabled := Some(enabled)))
    ensures Load(f, r).(enabled := Some(enabled)) == r.(enabled := Some(enabled))
  {
    hide Normal;
    NormalFacts(r.(enabled := Some(enabled)));
  }

  /** Switching the rule of a file to what it is not changes that one flag of that one file, and nothing
      else, if and only if the file is tidy: a .yaml file, another name, or a rule that validation would
      change has a second file written, more than the flag rewritten, or nothing done at all. */
  lemma SwitchesOneFlagPrecisely(files: Files, f: File, enabled: bool)
    requires f in files && files[f].enabled != Some(enabled)
    ensures Switched(files, f, enabled) == files[f := files[f].(enabled := Some(enabled))] <==> TidyFile(f, files[f])
  {
    hide Validate, Load;
    var after, wanted := Switched(files, f, enabled), files[f].(enabled := Some(enabled));
    if TidyFile(f, files[f]) {
      TidySwitches(files, f, enabled);
    } else if after == files[f := wanted] {
      var payload := Load(f, files[f]).(enabled := Some(enabled));
      assert after[f] == wanted != files[f];
      assert Validate(payload) == Ok(wanted) && f == File(wanted.id, false);
      ValidatedIsNormal(payload);
      IdGiven(f, files[f], enabled);
      SwitchedStaysFixed(wanted, true);
    }
  }

  lemma SwitchKeepsTidy(files: Files, id: string, enabled: bool)
    requires Tidy(files)
    ensures Tidy(Switch(files, id, enabled))
  {
    hide Validate;
  }

  lemma TidyIsYml(f: File, r: Rule)
    requires TidyFile(f, r)
    ensures !f.yaml
  {
  }

  /** In a tidy directory, the rule with an id is in the file of that name, and switching it changes that
      flag and leaves the directory tidy. */
  lemma SwitchInTidy(files: Files, id: string, enabled: bool)
    requires Tidy(files)
    ensures forall f :: f in files && HasId(files, f, id) ==> f == File(id, false)
    ensures File(id, false) in files ==>
              && FirstWithId(files, id, File(id, false))
              && Switched(files, File(id, false), enabled) == Switch(files, id, enabled)
    ensures Tidy(Switch(files, id, enabled))
  {
    hide Validate, Load, TidyFile;
    SwitchKeepsTidy(files, id, enabled);
    forall f | f in files ensures HasId(files, f, id) <==> f == File(id, false) {
      assert TidyFile(f, files[f]);
      TidyLoads(f, files[f]);
      assert !f.yaml by { TidyIsYml(f, files[f]); }
    }
    if File(id, false) in files {
      TidySwitches(files, File(id, false), enabled);
    }
  }

  /** Switching a rule and switching it back restores the directory. */
  lemma ToggleBack(files: Files, id: string, enabled: bool)
    requires Tidy(files) && (File(id, false) in files ==> files[File(id, false)].enabled == Some(enabled))
    ensures Switch(Switch(files, id, !enabled), id, enabled) == files
    ensures Tidy(Switch(files, id, !enabled))
  {
    hide Validate;
    SwitchKeepsTidy(files, id, !enabled);
    var f := File(id, false);
    if f in files {
      assert Switch(Switch(files, id, !enabled), id, enabled)[f] == files[f];
    }
  }
}
