/**
 * The command-line scanner and validator of the notifier's `main`.
 *
 * `ScanFrom` follows the loop of `main` branch for branch. The same behaviour
 * is then described a second way, declaratively: the scan visits a fixed
 * sequence of positions (`Heads`), each visited token says what it assigns
 * (`DirectiveAt`), and every field ends with the last value assigned to it.
 * `ScanMatchesReference` proves the two descriptions equal, and the lemmas
 * after it read the individual guarantees off the declarative one.
 */
module Parser {
  import opened Options
  import opened Text

  // ---------------------------------------------------------------- the scan loop

  /** The variables `main` fills while scanning its arguments. */
  datatype Fields = Fields(typ: string, title: string, timeout: int, autoClose: bool, message: string)

  /** Their initial values: type `info`, no custom title, timeout 5, auto-close on, no message. */
  const Defaults: Fields := Fields("info", "", 5, true, "")

  /** A scan either meets a help flag (and the process exits at once) or runs to the end. */
  datatype Scan = HelpRequested | Scanned(fields: Fields)

  predicate IsHelpToken(a: string) {
    a == "--help" || a == "-help" || a == "-h"
  }

  /** `parseBool`: case-insensitive equality with `true`. */
  function ParseBool(s: string): bool {
    ToLower(s) == "true"
  }

  /** The argument loop of `main` from index `i` with the variables in `f`. */
  function ScanFrom(args: seq<string>, i: nat, f: Fields): Scan
    requires i <= |args|
    decreases |args| - i
  {
    if i == |args| then Scanned(f)
    else
      var arg := args[i];
      if arg == "--help" || arg == "-help" || arg == "-h" then HelpRequested
      else if HasPrefix(arg, "--type=") then
        ScanFrom(args, i + 1, f.(typ := TrimPrefix(arg, "--type=")))
      else if (arg == "--type" || arg == "-type") && i + 1 < |args| then
        ScanFrom(args, i + 2, f.(typ := args[i + 1]))
      else if HasPrefix(arg, "--title=") then
        ScanFrom(args, i + 1, f.(title := TrimPrefix(arg, "--title=")))
      else if (arg == "--title" || arg == "-title") && i + 1 < |args| then
        ScanFrom(args, i + 2, f.(title := args[i + 1]))
      else if HasPrefix(arg, "--timeout=") then
        var t := Atoi(TrimPrefix(arg, "--timeout="));
        ScanFrom(args, i + 1, f.(timeout := t.GetOr(f.timeout)))
      else if (arg == "--timeout" || arg == "-timeout") && i + 1 < |args| then
        var t := Atoi(args[i + 1]);
        ScanFrom(args, i + 2, f.(timeout := t.GetOr(f.timeout)))
      else if HasPrefix(arg, "--autoclose=") then
        ScanFrom(args, i + 1, f.(autoClose := ParseBool(TrimPrefix(arg, "--autoclose="))))
      else if (arg == "--autoclose" || arg == "-autoclose") && i + 1 < |args| then
        ScanFrom(args, i + 2, f.(autoClose := ParseBool(args[i + 1])))
      else if !HasPrefix(arg, "-") then
        ScanFrom(args, i + 1, f.(message := arg))
      else
        ScanFrom(args, i + 1, f)
  }

  /** The whole scan, from the first argument after the program name. */
  function ScanArgs(args: seq<string>): Scan {
    ScanFrom(args, 0, Defaults)
  }

  // ---------------------------------------------------------------- declarative reading

  /** The three spellings of a value-taking flag. */
  datatype Flag = Flag(long: string, short: string, assign: string)

  const TypeFlag: Flag := Flag("--type", "-type", "--type=")
  const TitleFlag: Flag := Flag("--title", "-title", "--title=")
  const TimeoutFlag: Flag := Flag("--timeout", "-timeout", "--timeout=")
  const AutoCloseFlag: Flag := Flag("--autoclose", "-autoclose", "--autoclose=")

  predicate Names(flag: Flag, a: string) {
    a == flag.long || a == flag.short
  }

  /** Tokens that take the following token as their value, when there is one. */
  predicate IsValueFlag(a: string) {
    Names(TypeFlag, a) || Names(TitleFlag, a) || Names(TimeoutFlag, a) || Names(AutoCloseFlag, a)
  }

  /** How many tokens the scan consumes at position `i`. */
  function Stride(args: seq<string>, i: nat): nat
    requires i < |args|
  {
    if IsValueFlag(args[i]) && i + 1 < |args| then 2 else 1
  }

  /** The positions the scan visits from `i` on, when no help flag stops it. */
  function HeadsFrom(args: seq<string>, i: nat): (hs: seq<nat>)
    requires i <= |args|
    ensures forall k :: 0 <= k < |hs| ==> i <= hs[k] < |args|
    ensures i < |args| <==> |hs| > 0
    ensures |hs| > 0 ==> hs[0] == i
    decreases |args| - i
  {
    if i == |args| then [] else [i] + HeadsFrom(args, i + Stride(args, i))
  }

  function Heads(args: seq<string>): seq<nat> {
    HeadsFrom(args, 0)
  }

  /** The value the visited token at `h` gives `flag`, if it sets that flag. */
  function FlagValue(flag: Flag, args: seq<string>, h: nat): Option<string>
    requires h < |args|
  {
    if HasPrefix(args[h], flag.assign) then Some(args[h][|flag.assign|..])
    else if Names(flag, args[h]) && h + 1 < |args| then Some(args[h + 1])
    else None
  }

  /** What a visited token does: request help, or assign some of the fields. */
  datatype Directive = Directive(
    help: bool,
    typ: Option<string>,
    title: Option<string>,
    timeout: Option<int>,
    autoClose: Option<bool>,
    message: Option<string>)

  function DirectiveAt(args: seq<string>, h: nat): Directive
    requires h < |args|
  {
    Directive(
      IsHelpToken(args[h]),
      FlagValue(TypeFlag, args, h),
      FlagValue(TitleFlag, args, h),
      TimeoutAt(args, h),
      match FlagValue(AutoCloseFlag, args, h) case Some(v) => Some(ParseBool(v)) case None => None,
      if HasPrefix(args[h], "-") then None else Some(args[h]))
  }

  /** The timeout the visited token at `h` sets: its flag's value, when `Atoi` accepts it. */
  function TimeoutAt(args: seq<string>, h: nat): (t: Option<int>)
    requires h < |args|
    ensures t.Some? ==> IsGoInt(t.value)
  {
    match FlagValue(TimeoutFlag, args, h)
    case Some(v) => Atoi(v)
    case None => None
  }

  /** The directives of the visited positions, in scan order. */
  function DirectivesFrom(args: seq<string>, i: nat): (ds: seq<Directive>)
    requires i <= |args|
    ensures |ds| == |HeadsFrom(args, i)|
  {
    var hs := HeadsFrom(args, i);
    seq(|hs|, k requires 0 <= k < |hs| => DirectiveAt(args, hs[k]))
  }

  function TypeOf(d: Directive): Option<string> { d.typ }
  function TitleOf(d: Directive): Option<string> { d.title }
  function TimeoutOf(d: Directive): Option<int> { d.timeout }
  function AutoCloseOf(d: Directive): Option<bool> { d.autoClose }
  function MessageOf(d: Directive): Option<string> { d.message }

  function Column<T>(ds: seq<Directive>, pick: Directive -> Option<T>): (xs: seq<Option<T>>)
    ensures |xs| == |ds|
    ensures forall k :: 0 <= k < |ds| ==> xs[k] == pick(ds[k])
  {
    seq(|ds|, k requires 0 <= k < |ds| => pick(ds[k]))
  }

  /** Any help directive wins; otherwise each field keeps the last value assigned to it. */
  function Resolve(ds: seq<Directive>, base: Fields): Scan {
    if AnyHelp(ds) then HelpRequested else Scanned(Assigned(ds, base))
  }

  predicate AnyHelp(ds: seq<Directive>) {
    exists k :: 0 <= k < |ds| && ds[k].help
  }

  /** Every field takes the last value a directive assigns it, or keeps its value in `base`. */
  function Assigned(ds: seq<Directive>, base: Fields): Fields {
    Fields(
      LastSome(Column(ds, TypeOf)).GetOr(base.typ),
      LastSome(Column(ds, TitleOf)).GetOr(base.title),
      LastSome(Column(ds, TimeoutOf)).GetOr(base.timeout),
      LastSome(Column(ds, AutoCloseOf)).GetOr(base.autoClose),
      LastSome(Column(ds, MessageOf)).GetOr(base.message))
  }

  /** The effect of a single non-help directive on the fields. */
  function Apply(d: Directive, f: Fields): Fields {
    Fields(d.typ.GetOr(f.typ), d.title.GetOr(f.title), d.timeout.GetOr(f.timeout),
           d.autoClose.GetOr(f.autoClose), d.message.GetOr(f.message))
  }

  // ---------------------------------------------------------------- the scan equals its reading

  lemma ColumnCons<T>(d: Directive, ds: seq<Directive>, pick: Directive -> Option<T>)
    ensures Column([d] + ds, pick) == [pick(d)] + Column(ds, pick)
  {
  }

  lemma LastAfter<T>(x: Option<T>, xs: seq<Option<T>>, base: T)
    ensures LastSome([x] + xs).GetOr(base) == LastSome(xs).GetOr(x.GetOr(base))
  {
    LastSomeCons(x, xs);
  }

  /** A leading non-help directive is absorbed into the starting fields. */
  lemma ResolveCons(d: Directive, ds: seq<Directive>, f: Fields)
    requires !d.help
    ensures Resolve([d] + ds, f) == Resolve(ds, Apply(d, f))
  {
    AnyHelpCons(d, ds);
    AssignedCons(d, ds, f);
  }

  lemma AnyHelpCons(d: Directive, ds: seq<Directive>)
    ensures AnyHelp([d] + ds) <==> d.help || AnyHelp(ds)
  {
    var all := [d] + ds;
    if d.help {
      assert all[0].help;
    }
    if AnyHelp(all) && !d.help {
      var k :| 0 <= k < |all| && all[k].help;
      assert k > 0 && ds[k - 1] == all[k];
    }
    if AnyHelp(ds) {
      var k :| 0 <= k < |ds| && ds[k].help;
      assert all[k + 1] == ds[k];
    }
  }

  lemma AssignedCons(d: Directive, ds: seq<Directive>, f: Fields)
    ensures Assigned([d] + ds, f) == Assigned(ds, Apply(d, f))
  {
    LastColumnCons(d, ds, TypeOf, f.typ);
    LastColumnCons(d, ds, TitleOf, f.title);
    LastColumnCons(d, ds, TimeoutOf, f.timeout);
    LastColumnCons(d, ds, AutoCloseOf, f.autoClose);
    LastColumnCons(d, ds, MessageOf, f.message);
  }

  lemma LastColumnCons<T>(d: Directive, ds: seq<Directive>, pick: Directive -> Option<T>, base: T)
    ensures LastSome(Column([d] + ds, pick)).GetOr(base) == LastSome(Column(ds, pick)).GetOr(pick(d).GetOr(base))
  {
    ColumnCons(d, ds, pick);
    LastAfter(pick(d), Column(ds, pick), base);
  }

  lemma DirectivesUnfold(args: seq<string>, i: nat)
    requires i < |args|
    ensures DirectivesFrom(args, i) == [DirectiveAt(args, i)] + DirectivesFrom(args, i + Stride(args, i))
  {
    var hs := HeadsFrom(args, i);
    var tl := HeadsFrom(args, i + Stride(args, i));
    assert hs == [i] + tl;
    var l, r := DirectivesFrom(args, i), [DirectiveAt(args, i)] + DirectivesFrom(args, i + Stride(args, i));
    assert |l| == |r|;
    forall k | 0 <= k < |l|
      ensures l[k] == r[k]
    {
      if k > 0 {
        assert hs[k] == tl[k - 1];
      }
    }
  }

  /** One step of the loop is the visited token's directive applied to the fields. */
  lemma StepIsDirective(args: seq<string>, i: nat, f: Fields)
    requires i < |args|
    requires !IsHelpToken(args[i])
    ensures ScanFrom(args, i, f) == ScanFrom(args, i + Stride(args, i), Apply(DirectiveAt(args, i), f))
  {
    var a := args[i];
    if !HasPrefix(a, "-") {
      PositionalDirective(args, i);
    } else if HasPrefix(a, "--type=") || HasPrefix(a, "--title=")
           || HasPrefix(a, "--timeout=") || HasPrefix(a, "--autoclose=") {
      AssignStep(args, i, f);
    } else {
      FlagStep(args, i, f);
    }
  }

  lemma AssignStep(args: seq<string>, i: nat, f: Fields)
    requires i < |args| && HasPrefix(args[i], "-")
    requires HasPrefix(args[i], "--type=") || HasPrefix(args[i], "--title=")
          || HasPrefix(args[i], "--timeout=") || HasPrefix(args[i], "--autoclose=")
    ensures ScanFrom(args, i, f) == ScanFrom(args, i + Stride(args, i), Apply(DirectiveAt(args, i), f))
  {
    var a := args[i];
    if HasPrefix(a, "--type=") {
      TypeAssignDirective(args, i);
    } else if HasPrefix(a, "--title=") {
      TitleAssignDirective(args, i);
    } else if HasPrefix(a, "--timeout=") {
      TimeoutAssignDirective(args, i);
    } else {
      AutoCloseAssignDirective(args, i);
    }
  }

  lemma FlagStep(args: seq<string>, i: nat, f: Fields)
    requires i < |args| && HasPrefix(args[i], "-") && !IsHelpToken(args[i])
    requires !HasPrefix(args[i], "--type=") && !HasPrefix(args[i], "--title=")
    requires !HasPrefix(args[i], "--timeout=") && !HasPrefix(args[i], "--autoclose=")
    ensures ScanFrom(args, i, f) == ScanFrom(args, i + Stride(args, i), Apply(DirectiveAt(args, i), f))
  {
    FlagDirective(args, i);
  }

  /** A token without a leading dash is neither a flag nor an assignment: it only sets the message. */
  lemma PositionalDirective(args: seq<string>, i: nat)
    requires i < |args| && !HasPrefix(args[i], "-")
    ensures DirectiveAt(args, i) == Directive(false, None, None, None, None, Some(args[i]))
    ensures Stride(args, i) == 1
  {
    var a := args[i];
    if HasPrefix(a, "--type=") { PrefixHead(a, "--type="); }
    if HasPrefix(a, "--title=") { PrefixHead(a, "--title="); }
    if HasPrefix(a, "--timeout=") { PrefixHead(a, "--timeout="); }
    if HasPrefix(a, "--autoclose=") { PrefixHead(a, "--autoclose="); }
  }

  lemma TypeAssignDirective(args: seq<string>, i: nat)
    requires i < |args| && HasPrefix(args[i], "--type=")
    ensures DirectiveAt(args, i) == Directive(false, Some(TrimPrefix(args[i], "--type=")), None, None, None, None)
    ensures Stride(args, i) == 1
  {
    var a := args[i];
    PrefixHead(a, "--type=");
    PrefixesDiffer(a, "--type=", "--title=", 3);
    PrefixesDiffer(a, "--type=", "--timeout=", 3);
    PrefixesDiffer(a, "--type=", "--autoclose=", 2);
  }

  lemma TitleAssignDirective(args: seq<string>, i: nat)
    requires i < |args| && HasPrefix(args[i], "--title=") && !HasPrefix(args[i], "--type=")
    ensures DirectiveAt(args, i) == Directive(false, None, Some(TrimPrefix(args[i], "--title=")), None, None, None)
    ensures Stride(args, i) == 1
  {
    var a := args[i];
    PrefixHead(a, "--title=");
    PrefixesDiffer(a, "--title=", "--timeout=", 4);
    PrefixesDiffer(a, "--title=", "--autoclose=", 2);
  }

  lemma TimeoutAssignDirective(args: seq<string>, i: nat)
    requires i < |args| && HasPrefix(args[i], "--timeout=")
    requires !HasPrefix(args[i], "--type=") && !HasPrefix(args[i], "--title=")
    ensures DirectiveAt(args, i) == Directive(false, None, None, Atoi(TrimPrefix(args[i], "--timeout=")), None, None)
    ensures Stride(args, i) == 1
  {
    var a := args[i];
    PrefixHead(a, "--timeout=");
    PrefixesDiffer(a, "--timeout=", "--autoclose=", 2);
  }

  lemma AutoCloseAssignDirective(args: seq<string>, i: nat)
    requires i < |args| && HasPrefix(args[i], "--autoclose=")
    requires !HasPrefix(args[i], "--type=") && !HasPrefix(args[i], "--title=") && !HasPrefix(args[i], "--timeout=")
    ensures DirectiveAt(args, i)
      == Directive(false, None, None, None, Some(ParseBool(TrimPrefix(args[i], "--autoclose="))), None)
    ensures Stride(args, i) == 1
  {
  }

  /** A dash token with no `=` assignment: a value flag takes the next token, anything else is skipped. */
  lemma FlagDirective(args: seq<string>, i: nat)
    requires i < |args| && HasPrefix(args[i], "-") && !IsHelpToken(args[i])
    requires !HasPrefix(args[i], "--type=") && !HasPrefix(args[i], "--title=")
    requires !HasPrefix(args[i], "--timeout=") && !HasPrefix(args[i], "--autoclose=")
    ensures var d := DirectiveAt(args, i);
      && !d.help && d.message.None?
      && d.typ == (if Names(TypeFlag, args[i]) && i + 1 < |args| then Some(args[i + 1]) else None)
      && d.title == (if Names(TitleFlag, args[i]) && i + 1 < |args| then Some(args[i + 1]) else None)
      && d.timeout == (if Names(TimeoutFlag, args[i]) && i + 1 < |args| then Atoi(args[i + 1]) else None)
      && d.autoClose == (if Names(AutoCloseFlag, args[i]) && i + 1 < |args| then Some(ParseBool(args[i + 1])) else None)
  {
  }

  /** A help flag at a visited position ends both the loop and the reading. */
  lemma HelpStep(args: seq<string>, i: nat, f: Fields)
    requires i < |args| && IsHelpToken(args[i])
    ensures ScanFrom(args, i, f) == HelpRequested
    ensures Resolve(DirectivesFrom(args, i), f) == HelpRequested
  {
    DirectivesUnfold(args, i);
    AnyHelpCons(DirectiveAt(args, i), DirectivesFrom(args, i + Stride(args, i)));
  }

  /** The loop of `main` computes exactly the declarative reading, from any position and state. */
  lemma {:induction false} ScanFromMatchesReference(args: seq<string>, i: nat, f: Fields)
    requires i <= |args|
    ensures ScanFrom(args, i, f) == Resolve(DirectivesFrom(args, i), f)
    decreases |args| - i
  {
    if i == |args| {
      assert DirectivesFrom(args, i) == [];
    } else if IsHelpToken(args[i]) {
      HelpStep(args, i, f);
    } else {
      var d := DirectiveAt(args, i);
      var next := i + Stride(args, i);
      ScanFromMatchesReference(args, next, Apply(d, f));
      StepIsDirective(args, i, f);
      ResolveStep(args, i, f);
    }
  }

  /** In the reading, a visited non-help token is likewise absorbed into the fields. */
  lemma ResolveStep(args: seq<string>, i: nat, f: Fields)
    requires i < |args| && !IsHelpToken(args[i])
    ensures Resolve(DirectivesFrom(args, i), f)
         == Resolve(DirectivesFrom(args, i + Stride(args, i)), Apply(DirectiveAt(args, i), f))
  {
    DirectivesUnfold(args, i);
    ResolveCons(DirectiveAt(args, i), DirectivesFrom(args, i + Stride(args, i)), f);
  }

  lemma ScanMatchesReference(args: seq<string>)
    ensures ScanArgs(args) == Resolve(DirectivesFrom(args, 0), Defaults)
  {
    ScanFromMatchesReference(args, 0, Defaults);
  }

  // ---------------------------------------------------------------- what the scan guarantees

  /** Tokens that the scan reads as the message. */
  predicate IsPositional(a: string) {
    !HasPrefix(a, "-")
  }

  /** The visited positions strictly increase, so no token is visited twice. */
  lemma {:induction false} HeadsIncrease(args: seq<string>, i: nat)
    requires i <= |args|
    ensures forall j, k :: 0 <= j < k < |HeadsFrom(args, i)| ==> HeadsFrom(args, i)[j] < HeadsFrom(args, i)[k]
    decreases |args| - i
  {
    if i < |args| {
      var hs := HeadsFrom(args, i);
      var next := i + Stride(args, i);
      var tl := HeadsFrom(args, next);
      HeadsIncrease(args, next);
      assert hs == [i] + tl;
      forall j, k | 0 <= j < k < |hs|
        ensures hs[j] < hs[k]
      {
        assert hs[k] == tl[k - 1];
        if j > 0 { assert hs[j] == tl[j - 1]; }
      }
    }
  }

  /** After a visited position the scan moves on by that position's stride. */
  lemma {:induction false} HeadsStep(args: seq<string>, i: nat, k: nat)
    requires i <= |args|
    requires k + 1 < |HeadsFrom(args, i)|
    ensures HeadsFrom(args, i)[k + 1] == HeadsFrom(args, i)[k] + Stride(args, HeadsFrom(args, i)[k])
    ensures HeadsFrom(args, i)[k] + 1 <= HeadsFrom(args, i)[k + 1] <= HeadsFrom(args, i)[k] + 2
    decreases |args| - i
  {
    var next := i + Stride(args, i);
    var tl := HeadsFrom(args, next);
    assert HeadsFrom(args, i) == [i] + tl;
    if k > 0 {
      HeadsStep(args, next, k - 1);
    }
  }

  /**
   * A value flag with a following token consumes it: the value position is
   * never visited, so a value that looks like a flag (`--title -h`) is only a value.
   */
  lemma ValueIsNotVisited(args: seq<string>, k: nat)
    requires k < |Heads(args)|
    requires IsValueFlag(args[Heads(args)[k]]) && Heads(args)[k] + 1 < |args|
    ensures forall j :: 0 <= j < |Heads(args)| ==> Heads(args)[j] != Heads(args)[k] + 1
    ensures k + 1 < |Heads(args)| ==> Heads(args)[k + 1] == Heads(args)[k] + 2
  {
    var hs := Heads(args);
    HeadsIncrease(args, 0);
    if k + 1 < |hs| {
      HeadsStep(args, 0, k);
    }
    forall j | 0 <= j < |hs|
      ensures hs[j] != hs[k] + 1
    {
      if k < j {
        assert hs[k + 1] == hs[k] + 2;
        assert hs[k + 1] <= hs[j];
      }
    }
  }

  /** The scan asks for help exactly when one of the positions it visits holds a help flag. */
  lemma HelpIffVisited(args: seq<string>)
    ensures ScanArgs(args).HelpRequested? <==>
      exists k :: 0 <= k < |Heads(args)| && IsHelpToken(args[Heads(args)[k]])
  {
    ScanMatchesReference(args);
    var hs, ds := Heads(args), DirectivesFrom(args, 0);
    assert forall k :: 0 <= k < |ds| ==> ds[k].help == IsHelpToken(args[hs[k]]);
  }

  /** When the scan runs to the end, its fields are those the reading assigns. */
  lemma ScannedFields(args: seq<string>, f: Fields)
    requires ScanArgs(args) == Scanned(f)
    ensures f == Assigned(DirectivesFrom(args, 0), Defaults)
  {
    ScanMatchesReference(args);
  }

  lemma ScannedMessage(args: seq<string>, f: Fields)
    requires ScanArgs(args) == Scanned(f)
    ensures f.message == LastSome(Column(DirectivesFrom(args, 0), MessageOf)).GetOr(Defaults.message)
  {
    ScannedFields(args, f);
  }

  lemma ScannedTimeout(args: seq<string>, f: Fields)
    requires ScanArgs(args) == Scanned(f)
    ensures f.timeout == LastSome(Column(DirectivesFrom(args, 0), TimeoutOf)).GetOr(Defaults.timeout)
  {
    ScannedFields(args, f);
  }

  lemma MessageColumn(args: seq<string>)
    ensures var hs, col := Heads(args), Column(DirectivesFrom(args, 0), MessageOf);
      |col| == |hs| &&
      forall k :: 0 <= k < |hs| ==> col[k] == if IsPositional(args[hs[k]]) then Some(args[hs[k]]) else None
  {
  }

  lemma TimeoutColumn(args: seq<string>)
    ensures var hs, col := Heads(args), Column(DirectivesFrom(args, 0), TimeoutOf);
      |col| == |hs| &&
      forall k :: 0 <= k < |hs| ==> col[k] == TimeoutAt(args, hs[k])
  {
  }

  /** Once a help flag is reached nothing after it matters: appending tokens keeps the help request. */
  lemma {:induction false} HelpIgnoresLaterTokensFrom(a: seq<string>, b: seq<string>, i: nat, f: Fields)
    requires i <= |a|
    requires ScanFrom(a, i, f) == HelpRequested
    ensures ScanFrom(a + b, i, f) == HelpRequested
    decreases |a| - i
  {
    var ab := a + b;
    assert ab[i] == a[i];
    if !IsHelpToken(a[i]) {
      StepIsDirective(a, i, f);
      StepIsDirective(ab, i, f);
      SameStep(a, b, i);
      HelpIgnoresLaterTokensFrom(a, b, i + Stride(a, i), Apply(DirectiveAt(a, i), f));
    }
  }

  /** A step that stays inside `a` reads the same tokens in `a + b`. */
  lemma SameStep(a: seq<string>, b: seq<string>, i: nat)
    requires i < |a| && i + Stride(a, i) < |a|
    ensures Stride(a + b, i) == Stride(a, i)
    ensures DirectiveAt(a + b, i) == DirectiveAt(a, i)
  {
  }

  lemma HelpIgnoresLaterTokens(a: seq<string>, b: seq<string>)
    requires ScanArgs(a).HelpRequested?
    ensures ScanArgs(a + b).HelpRequested?
  {
    HelpIgnoresLaterTokensFrom(a, b, 0, Defaults);
  }

  /**
   * The message is the LAST visited token without a leading dash (the empty
   * token included), or empty when there is none; a dash token never becomes it.
   */
  lemma MessageIsLastPositional(args: seq<string>, f: Fields)
    requires ScanArgs(args) == Scanned(f)
    ensures !HasPrefix(f.message, "-")
    ensures (forall k :: 0 <= k < |Heads(args)| ==> !IsPositional(args[Heads(args)[k]])) ==> f.message == ""
    ensures (exists k :: 0 <= k < |Heads(args)| && IsPositional(args[Heads(args)[k]])) ==>
      exists k :: 0 <= k < |Heads(args)| && IsPositional(args[Heads(args)[k]])
        && f.message == args[Heads(args)[k]]
        && forall j :: k < j < |Heads(args)| ==> !IsPositional(args[Heads(args)[j]])
  {
    ScannedMessage(args, f);
    LastMessageHasNoDash(args, f.message);
    NoPositionalKeepsEmpty(args, f.message);
    LastPositionalWins(args, f.message);
  }

  lemma LastMessageHasNoDash(args: seq<string>, m: string)
    requires m == LastSome(Column(DirectivesFrom(args, 0), MessageOf)).GetOr("")
    ensures !HasPrefix(m, "-")
  {
  }

  lemma NoPositionalKeepsEmpty(args: seq<string>, m: string)
    requires m == LastSome(Column(DirectivesFrom(args, 0), MessageOf)).GetOr("")
    ensures (forall k :: 0 <= k < |Heads(args)| ==> !IsPositional(args[Heads(args)[k]])) ==> m == ""
  {
    MessageColumn(args);
  }

  lemma LastPositionalWins(args: seq<string>, m: string)
    requires m == LastSome(Column(DirectivesFrom(args, 0), MessageOf)).GetOr("")
    ensures (exists k :: 0 <= k < |Heads(args)| && IsPositional(args[Heads(args)[k]])) ==>
      exists k :: 0 <= k < |Heads(args)| && IsPositional(args[Heads(args)[k]])
        && m == args[Heads(args)[k]]
        && forall j :: k < j < |Heads(args)| ==> !IsPositional(args[Heads(args)[j]])
  {
    MessageColumn(args);
  }

  /**
   * The timeout is the value of the last visited timeout flag whose text
   * `Atoi` accepts, or 5 when there is none; a rejected value is skipped.
   * Either way it fits Go's `int`.
   */
  lemma TimeoutIsLastParsed(args: seq<string>, f: Fields)
    requires ScanArgs(args) == Scanned(f)
    ensures IsGoInt(f.timeout)
    ensures (forall k :: 0 <= k < |Heads(args)| ==> TimeoutAt(args, Heads(args)[k]).None?) ==> f.timeout == 5
    ensures (exists k :: 0 <= k < |Heads(args)| && TimeoutAt(args, Heads(args)[k]).Some?) ==>
      exists k :: 0 <= k < |Heads(args)| && TimeoutAt(args, Heads(args)[k]) == Some(f.timeout)
        && forall j :: k < j < |Heads(args)| ==> TimeoutAt(args, Heads(args)[j]).None?
  {
    ScannedTimeout(args, f);
    LastTimeoutFits(args, f.timeout);
    NoTimeoutKeepsDefault(args, f.timeout);
    LastTimeoutWins(args, f.timeout);
  }

  lemma LastTimeoutFits(args: seq<string>, t: int)
    requires t == LastSome(Column(DirectivesFrom(args, 0), TimeoutOf)).GetOr(5)
    ensures IsGoInt(t)
  {
  }

  lemma NoTimeoutKeepsDefault(args: seq<string>, t: int)
    requires t == LastSome(Column(DirectivesFrom(args, 0), TimeoutOf)).GetOr(5)
    ensures (forall k :: 0 <= k < |Heads(args)| ==> TimeoutAt(args, Heads(args)[k]).None?) ==> t == 5
  {
    TimeoutColumn(args);
  }

  lemma LastTimeoutWins(args: seq<string>, t: int)
    requires t == LastSome(Column(DirectivesFrom(args, 0), TimeoutOf)).GetOr(5)
    ensures (exists k :: 0 <= k < |Heads(args)| && TimeoutAt(args, Heads(args)[k]).Some?) ==>
      exists k :: 0 <= k < |Heads(args)| && TimeoutAt(args, Heads(args)[k]) == Some(t)
        && forall j :: k < j < |Heads(args)| ==> TimeoutAt(args, Heads(args)[j]).None?
  {
    TimeoutColumn(args);
  }

  /** `parseBool` accepts exactly the sixteen upper/lower-case spellings of `true`. */
  lemma ParseBoolIsTrueInAnyCase(s: string)
    ensures ParseBool(s) <==>
      (|s| == 4
       && (s[0] == 't' || s[0] == 'T') && (s[1] == 'r' || s[1] == 'R')
       && (s[2] == 'u' || s[2] == 'U') && (s[3] == 'e' || s[3] == 'E'))
  {
  }

  /** A directive that requests nothing and assigns nothing. */
  predicate IsInert(d: Directive) {
    d == Directive(false, None, None, None, None, None)
  }

  /**
   * An unknown dash token, or a value flag with nothing after it, is visited
   * alone and assigns nothing.
   */
  lemma IgnoredTokenIsInert(args: seq<string>, h: nat)
    requires h < |args|
    requires HasPrefix(args[h], "-") && !IsHelpToken(args[h])
    requires !HasPrefix(args[h], "--type=") && !HasPrefix(args[h], "--title=")
    requires !HasPrefix(args[h], "--timeout=") && !HasPrefix(args[h], "--autoclose=")
    requires !IsValueFlag(args[h]) || h + 1 == |args|
    ensures IsInert(DirectiveAt(args, h))
    ensures Stride(args, h) == 1
  {
  }

  /**
   * Deleting the directive of an ignored visited token leaves the result of
   * the whole scan as it was: such a token changes no field.
   */
  lemma IgnoredTokenChangesNothing(args: seq<string>, k: nat)
    requires k < |Heads(args)|
    requires var a := args[Heads(args)[k]];
      && HasPrefix(a, "-") && !IsHelpToken(a)
      && !HasPrefix(a, "--type=") && !HasPrefix(a, "--title=")
      && !HasPrefix(a, "--timeout=") && !HasPrefix(a, "--autoclose=")
      && (!IsValueFlag(a) || Heads(args)[k] + 1 == |args|)
    ensures var ds := DirectivesFrom(args, 0);
      ScanArgs(args) == Resolve(ds[..k] + ds[k + 1..], Defaults)
  {
    var ds := DirectivesFrom(args, 0);
    ScanMatchesReference(args);
    IgnoredTokenIsInert(args, Heads(args)[k]);
    assert ds[k] == DirectiveAt(args, Heads(args)[k]);
    InertDirectiveChangesNothing(ds, k, Defaults);
  }

  lemma ColumnWithout<T>(ds: seq<Directive>, k: nat, pick: Directive -> Option<T>)
    requires k < |ds|
    ensures Column(ds[..k] + ds[k + 1..], pick) == Column(ds, pick)[..k] + Column(ds, pick)[k + 1..]
  {
  }

  /** Dropping an inert directive changes no field and no help decision. */
  lemma InertDirectiveChangesNothing(ds: seq<Directive>, k: nat, f: Fields)
    requires k < |ds| && IsInert(ds[k])
    ensures Resolve(ds[..k] + ds[k + 1..], f) == Resolve(ds, f)
  {
    AnyHelpWithout(ds, k);
    AssignedWithout(ds, k, f);
  }

  lemma AnyHelpWithout(ds: seq<Directive>, k: nat)
    requires k < |ds| && !ds[k].help
    ensures AnyHelp(ds[..k] + ds[k + 1..]) <==> AnyHelp(ds)
  {
    var rest := ds[..k] + ds[k + 1..];
    if AnyHelp(rest) {
      var j :| 0 <= j < |rest| && rest[j].help;
      if j < k { assert rest[j] == ds[j]; } else { assert rest[j] == ds[j + 1]; }
    }
    if AnyHelp(ds) {
      var j :| 0 <= j < |ds| && ds[j].help;
      if j < k { assert rest[j] == ds[j]; } else { assert rest[j - 1] == ds[j]; }
    }
  }

  lemma AssignedWithout(ds: seq<Directive>, k: nat, f: Fields)
    requires k < |ds| && IsInert(ds[k])
    ensures Assigned(ds[..k] + ds[k + 1..], f) == Assigned(ds, f)
  {
    ColumnWithout(ds, k, TypeOf);
    ColumnWithout(ds, k, TitleOf);
    ColumnWithout(ds, k, TimeoutOf);
    ColumnWithout(ds, k, AutoCloseOf);
    ColumnWithout(ds, k, MessageOf);
    LastSomeSkipsNone(Column(ds, TypeOf), k);
    LastSomeSkipsNone(Column(ds, TitleOf), k);
    LastSomeSkipsNone(Column(ds, TimeoutOf), k);
    LastSomeSkipsNone(Column(ds, AutoCloseOf), k);
    LastSomeSkipsNone(Column(ds, MessageOf), k);
  }

  // ---------------------------------------------------------------- validation

  /** The validated request `main` hands to the dispatcher. */
  datatype Notification = Notification(typ: string, title: string, message: string, timeout: int, autoClose: bool)

  /** How the command line ends: help shown (exit 0), one of two usage errors (exit 1), or a request. */
  datatype Outcome = Help | MissingMessage | InvalidType(typ: string) | Ok(notification: Notification)

  const ValidTypes: seq<string> := ["success", "error", "info", "warning"]

  /** Every valid type is one lower-case word, so `strings.Title` capitalises its first letter only. */
  lemma ValidTypesAreWords(t: string)
    requires t in ValidTypes
    ensures |t| > 0 && forall i :: 0 <= i < |t| ==> IsLower(t[i])
  {
  }

  /** The checks after the scan: the message first, then the type, then the default title. */
  function Validate(f: Fields): (o: Outcome)
    ensures !o.Help?
    ensures o.MissingMessage? <==> f.message == ""
    ensures o.InvalidType? <==> f.message != "" && f.typ !in ValidTypes
    ensures o.InvalidType? ==> o.typ == f.typ
    ensures o.Ok? ==>
      var n := o.notification;
      && n.typ == f.typ && n.typ in ValidTypes
      && n.message == f.message && n.message != ""
      && n.timeout == f.timeout && n.autoClose == f.autoClose
      && n.title != ""
      && (f.title != "" ==> n.title == f.title)
      && (f.title == "" ==> n.title == [UpperChar(f.typ[0])] + f.typ[1..] && IsUpper(n.title[0]))
  {
    if f.message == "" then MissingMessage
    else if f.typ !in ValidTypes then InvalidType(f.typ)
    else
      var title := if f.title != "" then f.title else Title(f.typ);
      ValidTypesAreWords(f.typ);
      TitleOfWord(f.typ);
      Ok(Notification(f.typ, title, f.message, f.timeout, f.autoClose))
  }

  /** The whole of `main` before dispatch: scan, then validate. */
  function Parse(args: seq<string>): (o: Outcome)
    ensures o.Help? <==> exists k :: 0 <= k < |Heads(args)| && IsHelpToken(args[Heads(args)[k]])
    ensures o.Ok? ==>
      && o.notification.typ in ValidTypes
      && o.notification.message != "" && IsPositional(o.notification.message)
      && o.notification.title != ""
      && IsGoInt(o.notification.timeout)
  {
    HelpIffVisited(args);
    match ScanArgs(args)
    case HelpRequested => Help
    case Scanned(f) =>
      MessageIsLastPositional(args, f);
      TimeoutIsLastParsed(args, f);
      Validate(f)
  }
}
