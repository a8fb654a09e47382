// `assess` (scripts/check_live_fix_loop_sample.py): whether a run of the fix-loop sample repaired the file
// the model wrote. The lines the sample prints are taken as parsed records.
module RepairVerdict {
  import opened Common

  // ----- what a run printed -----

  /** A tally line: the number, and the names beside it. */
  datatype Tally = Tally(count: nat, names: seq<string>)

  /** A compiler diagnostic; `fault` is the identity `_named` derives for it, its rule and target. */
  datatype Diagnostic = Diagnostic(level: string, rule: string, fault: string)

  /** A compile block: the phases it reports, in lower case, and its diagnostics. */
  datatype Compile = Compile(phases: set<string>, diagnostics: seq<Diagnostic>)

  datatype Work = Work(
    authored: Option<bool>, changed: Option<bool>, intact: Option<bool>, suppressed: Option<nat>,
    fixed: Option<Tally>, remaining: Option<Tally>, introduced: Option<Tally>)

  /** A container count: how many, and what is printed as their ids. */
  datatype Count = Count(count: nat, ids: string)

  datatype Footer = Footer(disposed: nat, leftover: nat)

  /** `counts` are all matches at each of the four checkpoints, `calls` the validations of each turn. */
  datatype Output = Output(
    baseline: Option<Compile>, baselineTally: Option<Tally>, turnOne: Option<string>,
    calls: seq<Option<nat>>, counts: seq<seq<Count>>, work: Option<Work>, final: Option<Compile>,
    footer: Option<Footer>, notDisposed: bool)
  {
    predicate Complete() {
      |calls| == 2 && |counts| == 4
    }
  }

  // ----- why a run is refused -----

  datatype Reason =
    | NoBaseline | PartialBaseline | NoBaselineTally | BaselineDisagrees | NothingToFix
    | CountDiffers | Repeated | Unknown
    | NoTurnOne | NotNamed
    | NoCalls | ZeroCalls | NoCount | ManyCounts | WrongCount | BadId | IdChanged
    | NoWork | NotSaidWritten | NotWritten | NotSaidChanged | NotChanged | NotSaidIntact | NotIntact
    | NotSaidSuppressed | Suppressed | NoTally | InTwoLists | NothingFixed | MadeWorse | Traded | CoversOther
    | NoCompile | PartialCompile | FixedButReported | ClaimedNotReported | Unaccounted | NewUntracked
    | NoFooter | PurgeIncomplete | WrongDisposed | LeftBehind

  /** The reasons marked as the model's own half. */
  predicate TheModels(r: Reason) {
    r in {NothingToFix, NotNamed, NotIntact, Suppressed, NothingFixed, MadeWorse, Traded, NewUntracked}
  }

  predicate AllTheModels(reasons: seq<Reason>) {
    forall r :: r in reasons ==> TheModels(r)
  }

  lemma OneReason(r: Reason)
    ensures AllTheModels([r]) <==> TheModels(r)
  {
    assert r in [r];
  }

  lemma MoreReasons(reasons: seq<Reason>, more: seq<Reason>)
    ensures AllTheModels(reasons + more) <==> AllTheModels(reasons) && AllTheModels(more)
  {
    assert forall r :: r in reasons ==> r in reasons + more;
    assert forall r :: r in more ==> r in reasons + more;
  }

  // ----- faults -----

  const RULE_IDS := ["no-unused-params", "BCP035"]
  const TOLERATED_RULE := "use-recent-api-versions"

  /** All of a fault up to its first parenthesis. */
  function RuleOf(fault: string): string {
    if fault == "" || fault[0] == '(' then "" else [fault[0]] + RuleOf(fault[1..])
  }

  predicate IsTracked(rule: string) {
    Lower(rule) == Lower(RULE_IDS[0]) || Lower(rule) == Lower(RULE_IDS[1])
  }

  /** The faults of those diagnostics whose rule is one of the two. */
  function Tracked(c: Compile): set<string> {
    set i | 0 <= i < |c.diagnostics| && IsTracked(c.diagnostics[i].rule) :: c.diagnostics[i].fault
  }

  function Names(t: Tally): set<string> {
    set n | n in t.names
  }

  /** The list has as many names as the line says, all different, all of tracked rules. */
  predicate Sound(t: Tally) {
    && |t.names| == t.count
    && (forall i, j :: 0 <= i < j < |t.names| ==> t.names[i] != t.names[j])
    && (forall n :: n in t.names ==> RuleOf(n) in RULE_IDS)
  }

  method AssessTally(t: Tally) returns (names: set<string>, reasons: seq<Reason>)
    ensures names == Names(t)
    ensures reasons == [] <==> Sound(t)
    ensures forall r :: r in reasons ==> !TheModels(r)
  {
    names, reasons := Names(t), [];
    if |t.names| != t.count {
      reasons := reasons + [CountDiffers];
    }
    if exists i, j :: 0 <= i < j < |t.names| && t.names[i] == t.names[j] {
      reasons := reasons + [Repeated];
    }
    if exists n :: n in t.names && RuleOf(n) !in RULE_IDS {
      reasons := reasons + [Unknown];
    }
  }

  // ----- the baseline -----

  const PHASES := {"build", "lint"}

  /** Both phases ran, and the tally names exactly what the diagnostics above it report. */
  predicate BaselineSound(o: Output) {
    && o.baseline.Some? && o.baseline.value.phases == PHASES && o.baselineTally.Some?
    && Sound(o.baselineTally.value) && Names(o.baselineTally.value) == Tracked(o.baseline.value)
  }

  /** The tracked faults of the file turn 1 wrote, as far as the run shows them. */
  function Authored(o: Output): set<string> {
    if o.baseline.Some? && o.baseline.value.phases == PHASES && o.baselineTally.Some?
    then Names(o.baselineTally.value) else {}
  }

  method AuthoredFaults(o: Output) returns (names: set<string>, reasons: seq<Reason>)
    ensures names == Authored(o)
    ensures reasons == [] <==> BaselineSound(o) && Authored(o) != {}
    ensures AllTheModels(reasons) <==> BaselineSound(o)
  {
    OneReason(NoBaseline);
    OneReason(PartialBaseline);
    OneReason(NoBaselineTally);
    if o.baseline.None? {
      return {}, [NoBaseline];
    }
    if o.baseline.value.phases != PHASES {
      return {}, [PartialBaseline];
    }
    if o.baselineTally.None? {
      return {}, [NoBaselineTally];
    }
    names, reasons := AssessTally(o.baselineTally.value);
    if names != Tracked(o.baseline.value) {
      reasons := reasons + [BaselineDisagrees];
      assert reasons[|reasons| - 1] == BaselineDisagrees;
    }
    if names == {} && reasons == [] {
      reasons := reasons + [NothingToFix];
    }
    assert reasons != [] ==> reasons[0] in reasons;
  }

  /** Turn 1's own words name every rule its file breaks. */
  predicate NamesAll(o: Output, authored: set<string>) {
    o.turnOne.Some? && forall f :: f in authored ==> Contains(Lower(o.turnOne.value), Lower(RuleOf(f)))
  }

  predicate OccursAt(s: string, part: string, i: nat) {
    i + |part| <= |s| && s[i..i + |part|] == part
  }

  predicate Contains(s: string, part: string) {
    exists i: nat :: i <= |s| && OccursAt(s, part, i)
  }

  method AssessFirstTurn(o: Output, authored: set<string>) returns (reasons: seq<Reason>)
    ensures reasons == [] <==> NamesAll(o, authored)
    ensures AllTheModels(reasons) <==> o.turnOne.Some?
  {
    OneReason(NoTurnOne);
    if o.turnOne.None? {
      return [NoTurnOne];
    }
    if exists f :: f in authored && !Contains(Lower(o.turnOne.value), Lower(RuleOf(f))) {
      return [NotNamed];
    }
    return [];
  }

  // ----- calls and containers -----

  predicate IsHex(c: char) {
    '0' <= c <= '9' || 'a' <= c <= 'f'
  }

  predicate IsDockerId(s: string) {
    (|s| == 12 || |s| == 64) && forall i :: 0 <= i < |s| ==> IsHex(s[i])
  }

  /** Each turn validated, and one container, the same one, is there at all four checkpoints. */
  predicate Warm(o: Output) {
    && o.Complete() && (forall i :: 0 <= i < 2 ==> o.calls[i].Some? && o.calls[i].value >= 1)
    && |o.counts[0]| == 1 && IsDockerId(o.counts[0][0].ids)
    && forall i :: 0 <= i < 4 ==> o.counts[i] == [Count(1, o.counts[0][0].ids)]
  }

  method AssessCallsAndCleanup(o: Output) returns (reasons: seq<Reason>)
    requires o.Complete()
    ensures reasons == [] <==> Warm(o)
    ensures forall r :: r in reasons ==> !TheModels(r)
  {
    reasons := [];
    for i := 0 to 2
      invariant reasons == [] <==> forall j :: 0 <= j < i ==> o.calls[j].Some? && o.calls[j].value >= 1
      invariant forall r :: r in reasons ==> !TheModels(r)
    {
      if o.calls[i].None? {
        reasons := reasons + [NoCalls];
      } else if o.calls[i].value < 1 {
        reasons := reasons + [ZeroCalls];
      }
    }
    ghost var called := reasons == [];
    var firstId: Option<string> := None;
    for i := 0 to 4
      invariant forall r :: r in reasons ==> !TheModels(r)
      invariant firstId.Some? ==> IsDockerId(firstId.value) && i > 0
      invariant reasons == [] ==> called && (i > 0 ==> firstId.Some?)
      invariant reasons == [] ==> forall j :: 0 <= j < i ==> o.counts[j] == [Count(1, firstId.value)]
      invariant reasons != [] ==> !called || !forall j :: 0 <= j < i ==>
        |o.counts[j]| == 1 && |o.counts[0]| == 1 && o.counts[j] == [Count(1, o.counts[0][0].ids)]
        && IsDockerId(o.counts[0][0].ids)
      invariant firstId.Some? ==> exists j :: 0 <= j < i && o.counts[j] == [Count(1, firstId.value)]
    {
      var matches := o.counts[i];
      if matches == [] {
        reasons := reasons + [NoCount];
        continue;
      }
      if |matches| != 1 {
        reasons := reasons + [ManyCounts];
        continue;
      }
      assert matches == [matches[0]];
      if matches[0].count != 1 {
        reasons := reasons + [WrongCount];
      } else if !IsDockerId(matches[0].ids) {
        reasons := reasons + [BadId];
      } else if firstId.None? {
        firstId := Some(matches[0].ids);
      } else if matches[0].ids != firstId.value {
        reasons := reasons + [IdChanged];
      }
    }
  }

  // ----- the final compile -----

  /** How often an untracked rule is reported, errors left out where `warningsOnly`. */
  function Times(diagnostics: seq<Diagnostic>, rule: string, warningsOnly: bool): nat {
    if diagnostics == [] then 0
    else
      var last := diagnostics[|diagnostics| - 1];
      Times(diagnostics[..|diagnostics| - 1], rule, warningsOnly)
      + (if last.rule == rule && !(warningsOnly && Lower(last.level) == "error") then 1 else 0)
  }

  /** A dictionary of counts, an absent key reading as zero. */
  function Get(counts: map<string, nat>, rule: string): nat {
    if rule in counts then counts[rule] else 0
  }

  method BaselineWarnings(o: Output) returns (counts: map<string, nat>)
    ensures forall rule ::
      Get(counts, rule) == if o.baseline.Some? then Times(o.baseline.value.diagnostics, rule, true) else 0
  {
    counts := map[];
    if o.baseline.None? {
      return;
    }
    var diagnostics := o.baseline.value.diagnostics;
    for i := 0 to |diagnostics|
      invariant forall rule :: Get(counts, rule) == Times(diagnostics[..i], rule, true)
    {
      assert diagnostics[..i + 1][..i] == diagnostics[..i];
      var rule := diagnostics[i].rule;
      if Lower(diagnostics[i].level) != "error" {
        counts := counts[rule := Get(counts, rule) + 1];
      }
    }
    assert diagnostics[..|diagnostics|] == diagnostics;
  }

  /** The untracked rules of the final compile, counted. */
  method FinalCounts(c: Compile) returns (counts: map<string, nat>)
    ensures forall rule :: Get(counts, rule) == if IsTracked(rule) then 0 else Times(c.diagnostics, rule, false)
    ensures forall rule :: rule in counts ==> counts[rule] > 0
  {
    hide IsTracked;
    counts := map[];
    for i := 0 to |c.diagnostics|
      invariant forall rule ::
        Get(counts, rule) == if IsTracked(rule) then 0 else Times(c.diagnostics[..i], rule, false)
      invariant forall rule :: rule in counts ==> counts[rule] > 0
    {
      assert c.diagnostics[..i + 1][..i] == c.diagnostics[..i];
      var rule := c.diagnostics[i].rule;
      if !IsTracked(rule) {
        counts := counts[rule := Get(counts, rule) + 1];
      }
    }
    assert c.diagnostics[..|c.diagnostics|] == c.diagnostics;
  }

  /** How often the file turn 1 wrote drew `rule`, errors aside. */
  function Licensed(o: Output, rule: string): nat {
    if o.baseline.Some? then Times(o.baseline.value.diagnostics, rule, true) else 0
  }

  /** No untracked rule but the tolerated one is reported more often than the baseline drew it. */
  ghost predicate NothingNew(o: Output, c: Compile) {
    forall rule :: !IsTracked(rule) && Lower(rule) != Lower(TOLERATED_RULE) ==>
      Times(c.diagnostics, rule, false) <= Licensed(o, rule)
  }

  /** The compile ran in full and its tracked faults are those the tally calls remaining or introduced. */
  predicate Agrees(o: Output, fixed: set<string>, remaining: set<string>, introduced: set<string>) {
    && o.final.Some? && o.final.value.phases == PHASES
    && fixed !! Tracked(o.final.value)
    && remaining <= Tracked(o.final.value) && introduced <= Tracked(o.final.value)
    && Tracked(o.final.value) <= remaining + introduced + fixed
  }

  lemma NoCommon(a: set<string>, b: set<string>)
    ensures a * b == {} <==> a !! b
  {
    if a * b == {} {
      forall f | f in a ensures f !in b {
        assert f !in a * b;
      }
    }
    if a !! b {
      assert a * b == {};
    }
  }

  /** The three emptiness tests of the code, as inclusions. */
  lemma SetsDiffer(fixed: set<string>, remaining: set<string>, introduced: set<string>, reported: set<string>)
    ensures fixed * reported == {} <==> fixed !! reported
    ensures remaining - reported + (introduced - reported) == {} <==> remaining <= reported && introduced <= reported
    ensures reported - remaining - introduced - fixed == {} <==> reported <= remaining + introduced + fixed
  {
    NoCommon(fixed, reported);
    if remaining - reported + (introduced - reported) == {} {
      forall f | f in remaining ensures f in reported {
        assert f !in remaining - reported + (introduced - reported);
      }
      forall f | f in introduced ensures f in reported {
        assert f !in remaining - reported + (introduced - reported);
      }
    }
    if remaining <= reported && introduced <= reported {
      assert remaining - reported == {} && introduced - reported == {};
    }
    if reported - remaining - introduced - fixed == {} {
      forall f | f in reported ensures f in remaining + introduced + fixed {
        assert f !in reported - remaining - introduced - fixed;
      }
    }
    if reported <= remaining + introduced + fixed {
      assert reported - remaining - introduced - fixed == {};
    }
  }

  method AssessCompilerAgrees(o: Output, fixed: set<string>, remaining: set<string>, introduced: set<string>)
    returns (reasons: seq<Reason>)
    ensures reasons == [] <==> Agrees(o, fixed, remaining, introduced) && NothingNew(o, o.final.value)
    ensures AllTheModels(reasons) <==> Agrees(o, fixed, remaining, introduced)
  {
    hide Tracked, IsTracked, Lower;
    OneReason(NoCompile);
    OneReason(PartialCompile);
    if o.final.None? {
      return [NoCompile];
    }
    var compiled := o.final.value;
    if compiled.phases != PHASES {
      return [PartialCompile];
    }
    reasons := [];
    var reported := Tracked(compiled);
    if fixed * reported != {} {
      reasons := reasons + [FixedButReported];
    }
    if remaining - reported + (introduced - reported) != {} {
      reasons := reasons + [ClaimedNotReported];
    }
    if reported - remaining - introduced - fixed != {} {
      reasons := reasons + [Unaccounted];
    }
    SetsDiffer(fixed, remaining, introduced, reported);
    assert reasons == [] <==> Agrees(o, fixed, remaining, introduced);
    assert reasons != [] ==> reasons[0] in reasons;
    ghost var before := reasons;
    var baseline := BaselineWarnings(o);
    var final := FinalCounts(compiled);
    if exists rule :: rule in final && Lower(rule) != Lower(TOLERATED_RULE) && final[rule] > Get(baseline, rule) {
      reasons := reasons + [NewUntracked];
    } else {
      forall rule | !IsTracked(rule) && Lower(rule) != Lower(TOLERATED_RULE)
        ensures Times(compiled.diagnostics, rule, false) <= Licensed(o, rule)
      {
        assert Get(final, rule) == Times(compiled.diagnostics, rule, false);
      }
    }
    MoreReasons(before, [NewUntracked]);
    OneReason(NewUntracked);
  }

  // ----- the work product -----

  /** The closing block says the file was written and changed, and says whether it is intact and whether
      a rule was silenced. */
  predicate Said(w: Work) {
    w.authored == Some(true) && w.changed == Some(true) && w.intact.Some? && w.suppressed.Some?
  }

  /** The three lists are sound, disjoint, cover what was authored, and agree with the final compile. */
  predicate Consistent(o: Output, w: Work, authored: set<string>) {
    && w.fixed.Some? && w.remaining.Some? && w.introduced.Some?
    && var (f, r, i) := (Names(w.fixed.value), Names(w.remaining.value), Names(w.introduced.value));
    && Sound(w.fixed.value) && Sound(w.remaining.value) && Sound(w.introduced.value)
    && f !! r && f !! i && r !! i
    && (authored != {} ==> f + r == authored)
    && Agrees(o, f, r, i)
  }

  /** What only the model can be blamed for: it kept the template, silenced nothing, fixed something,
      introduced nothing. */
  ghost predicate Converged(o: Output, w: Work)
    requires w.fixed.Some? && w.remaining.Some? && w.introduced.Some? && o.final.Some?
  {
    && w.intact == Some(true) && w.suppressed == Some(0)
    && Names(w.fixed.value) != {} && Names(w.introduced.value) == {}
    && NothingNew(o, o.final.value)
  }

  predicate Accountable(o: Output, authored: set<string>) {
    o.work.Some? && Said(o.work.value) && Consistent(o, o.work.value, authored)
  }

  method AssessSaid(w: Work) returns (reasons: seq<Reason>)
    ensures reasons == [] <==> Said(w) && w.intact == Some(true) && w.suppressed == Some(0)
    ensures AllTheModels(reasons) <==> Said(w)
  {
    var written := if w.authored.None? then [NotSaidWritten] else if !w.authored.value then [NotWritten] else [];
    var changed := if w.changed.None? then [NotSaidChanged] else if !w.changed.value then [NotChanged] else [];
    var intact := if w.intact.None? then [NotSaidIntact] else if !w.intact.value then [NotIntact] else [];
    var silenced :=
      if w.suppressed.None? then [NotSaidSuppressed] else if w.suppressed.value != 0 then [Suppressed] else [];
    reasons := written + changed + intact + silenced;
    MoreReasons(written, changed);
    MoreReasons(written + changed, intact);
    MoreReasons(written + changed + intact, silenced);
    forall r: Reason
      ensures AllTheModels([r]) <==> TheModels(r)
    {
      OneReason(r);
    }
  }

  method AssessLists(fixed: set<string>, remaining: set<string>, introduced: set<string>, authored: set<string>)
    returns (reasons: seq<Reason>)
    ensures reasons == [] <==>
      && fixed !! remaining && fixed !! introduced && remaining !! introduced
      && (authored != {} ==> fixed + remaining == authored) && fixed != {} && introduced == {}
    ensures AllTheModels(reasons) <==>
      && fixed !! remaining && fixed !! introduced && remaining !! introduced
      && (authored != {} ==> fixed + remaining == authored)
  {
    NoCommon(fixed, remaining);
    NoCommon(fixed, introduced);
    NoCommon(remaining, introduced);
    var overlaps :=
      if fixed * remaining != {} || fixed * introduced != {} || remaining * introduced != {} then [InTwoLists] else [];
    var progress :=
      if fixed == {} && introduced == {} then [NothingFixed]
      else if fixed == {} then [MadeWorse]
      else if introduced != {} then [Traded]
      else [];
    var covers := if authored != {} && fixed + remaining != authored then [CoversOther] else [];
    reasons := overlaps + progress + covers;
    MoreReasons(overlaps, progress);
    MoreReasons(overlaps + progress, covers);
    forall r: Reason
      ensures AllTheModels([r]) <==> TheModels(r)
    {
      OneReason(r);
    }
  }

  method AssessRepair(o: Output, authored: set<string>) returns (reasons: seq<Reason>)
    ensures reasons == [] <==> Accountable(o, authored) && Converged(o, o.work.value)
    ensures AllTheModels(reasons) <==> Accountable(o, authored)
  {
    hide Sound, Agrees, NothingNew, Names, AllTheModels;
    OneReason(NoWork);
    if o.work.None? {
      return [NoWork];
    }
    var w := o.work.value;
    var said := AssessSaid(w);
    if w.fixed.None? || w.remaining.None? || w.introduced.None? {
      OneReason(NoTally);
      MoreReasons(said, [NoTally]);
      return said + [NoTally];
    }
    var fixed, fixedReasons := AssessTally(w.fixed.value);
    var remaining, remainingReasons := AssessTally(w.remaining.value);
    var introduced, introducedReasons := AssessTally(w.introduced.value);
    var tallies := fixedReasons + remainingReasons + introducedReasons;
    NoneTheModels(tallies);
    var lists := AssessLists(fixed, remaining, introduced, authored);
    var compiler := AssessCompilerAgrees(o, fixed, remaining, introduced);
    reasons := said + tallies + lists + compiler;
    MoreReasons(said, tallies);
    MoreReasons(said + tallies, lists);
    MoreReasons(said + tallies + lists, compiler);
    assert reasons == [] <==> said == [] && tallies == [] && lists == [] && compiler == [];
  }

  lemma NoneTheModels(reasons: seq<Reason>)
    requires forall r :: r in reasons ==> !TheModels(r)
    ensures AllTheModels(reasons) <==> reasons == []
  {
    if reasons != [] {
      assert reasons[0] in reasons;
    }
  }

  // ----- the whole verdict -----

  /** The scope purge accounted for everything: one sandbox disposed of, nothing left. */
  predicate Clean(o: Output) {
    o.footer == Some(Footer(1, 0)) && !o.notDisposed
  }

  method AssessFooter(o: Output) returns (reasons: seq<Reason>)
    ensures reasons == [] <==> Clean(o)
    ensures forall r :: r in reasons ==> !TheModels(r)
  {
    if o.footer.None? {
      return [NoFooter];
    }
    reasons := [];
    if o.notDisposed {
      reasons := reasons + [PurgeIncomplete];
    }
    if o.footer.value.disposed != 1 {
      reasons := reasons + [WrongDisposed];
    }
    if o.footer.value.leftover != 0 {
      reasons := reasons + [LeftBehind];
    }
  }

  /** Everything but the model's own half of the work is in order. */
  predicate SuiteHealthy(o: Output) {
    BaselineSound(o) && o.turnOne.Some? && Warm(o) && Accountable(o, Authored(o)) && Clean(o)
  }

  ghost predicate Healthy(o: Output) {
    && SuiteHealthy(o) && Authored(o) != {} && NamesAll(o, Authored(o)) && Converged(o, o.work.value)
  }

  method Assess(o: Output) returns (reasons: seq<Reason>)
    requires o.Complete()
    ensures reasons == [] <==> Healthy(o)
    ensures AllTheModels(reasons) <==> SuiteHealthy(o)
  {
    hide BaselineSound, Warm, Accountable, Clean, NamesAll, Converged, AllTheModels, Authored;
    var authored, baseline := AuthoredFaults(o);
    var first := AssessFirstTurn(o, authored);
    var calls := AssessCallsAndCleanup(o);
    var repair := AssessRepair(o, authored);
    var footer := AssessFooter(o);
    NoneTheModels(calls);
    NoneTheModels(footer);
    reasons := baseline + first + calls + repair + footer;
    MoreReasons(baseline, first);
    MoreReasons(baseline + first, calls);
    MoreReasons(baseline + first + calls, repair);
    MoreReasons(baseline + first + calls + repair, footer);
    assert reasons == [] <==> baseline == [] && first == [] && calls == [] && repair == [] && footer == [];
    TurnOneIsThere(o);
  }

  lemma TurnOneIsThere(o: Output)
    ensures NamesAll(o, Authored(o)) ==> o.turnOne.Some?
  {
  }

  const MODEL_DID_NOT_CONVERGE := 3

  /** The exit status of `main` on a run it could read. */
  method ExitCode(o: Output) returns (code: int)
    requires o.Complete()
    ensures code == 0 <==> Healthy(o)
    ensures code == MODEL_DID_NOT_CONVERGE <==> SuiteHealthy(o) && !Healthy(o)
    ensures code in {0, 1, MODEL_DID_NOT_CONVERGE}
    // What the status for another attempt asserts: both turns reached the sandbox, the file was written
    // and changed, and nothing was left behind.
    ensures code == MODEL_DID_NOT_CONVERGE ==>
      && (forall i :: 0 <= i < 2 ==> o.calls[i].Some? && o.calls[i].value >= 1)
      && o.work.value.authored == Some(true) && o.work.value.changed == Some(true)
      && o.footer == Some(Footer(1, 0)) && !o.notDisposed
  {
    hide Healthy, Consistent, BaselineSound, IsDockerId, Authored;
    var reasons := Assess(o);
    if reasons == [] {
      return 0;
    }
    return if AllTheModels(reasons) then MODEL_DID_NOT_CONVERGE else 1;
  }

  // ----- what an accepted run proves -----

  /** Strict progress: what was authored splits into fixed and remaining, the final compile's tracked faults
      are the remaining ones and strictly fewer than those authored, nothing else got worse, and one
      container served throughout. */
  lemma AcceptanceIsProgress(o: Output)
    requires Healthy(o)
    ensures var w := o.work.value;
      var authored, fixed, remaining := Tracked(o.baseline.value), Names(w.fixed.value), Names(w.remaining.value);
      && authored == fixed + remaining && fixed !! remaining && fixed != {}
      && Tracked(o.final.value) == remaining && remaining < authored
      && w.authored == Some(true) && w.changed == Some(true) && w.intact == Some(true) && w.suppressed == Some(0)
    ensures forall rule :: !IsTracked(rule) && Lower(rule) != Lower(TOLERATED_RULE) ==>
      Times(o.final.value.diagnostics, rule, false) <= Times(o.baseline.value.diagnostics, rule, true)
    ensures exists id :: IsDockerId(id) && forall i :: 0 <= i < 4 ==> o.counts[i] == [Count(1, id)]
  {
    hide Tracked, Names, Sound, IsTracked, Times, Lower, IsDockerId;
    var w := o.work.value;
    var fixed, remaining := Names(w.fixed.value), Names(w.remaining.value);
    assert Tracked(o.final.value) == remaining by {
      forall f | f in Tracked(o.final.value)
        ensures f in remaining
      {
        assert f !in fixed;
      }
    }
    assert o.counts[0] == [Count(1, o.counts[0][0].ids)];
  }

  // ----- what acceptance takes, in terms of what was printed -----

  /** A tally is in order: as many names as it says, no name twice, and each of a tracked rule. */
  predicate InOrder(t: Tally) {
    |t.names| == t.count && |Names(t)| == t.count
    && forall n :: n in t.names ==> RuleOf(n) in {"no-unused-params", "BCP035"}
  }

  lemma {:induction false} DistinctIsCount(names: seq<string>)
    ensures |set n | n in names| == |names| <==> forall i, j :: 0 <= i < j < |names| ==> names[i] != names[j]
    ensures |set n | n in names| <= |names|
  {
    if names != [] {
      var front, last := names[..|names| - 1], names[|names| - 1];
      DistinctIsCount(front);
      assert names == front + [last];
      assert (set n | n in names) == (set n | n in front) + {last};
      if last in front {
        assert (set n | n in names) == set n | n in front;
        var i :| 0 <= i < |front| && front[i] == last;
        assert names[i] == names[|front|];
      } else {
        assert |set n | n in names| == |set n | n in front| + 1;
        assert forall i :: 0 <= i < |front| ==> names[i] == front[i];
      }
    }
  }

  lemma SoundExactly(t: Tally)
    ensures Sound(t) <==> InOrder(t)
  {
    hide RuleOf;
    DistinctIsCount(t.names);
    assert Names(t) == set n | n in t.names;
    assert forall r :: r in RULE_IDS <==> r in {"no-unused-params", "BCP035"};
  }

  /** The rule of a fault is all of it before the first opening parenthesis. */
  lemma {:induction false} RuleOfExactly(fault: string, rule: string)
    ensures RuleOf(fault) == rule <==>
      rule <= fault && '(' !in rule && (|rule| < |fault| ==> fault[|rule|] == '(')
  {
    if fault != "" && fault[0] != '(' {
      if rule != "" {
        RuleOfExactly(fault[1..], rule[1..]);
        assert rule == [rule[0]] + rule[1..];
        assert RuleOf(fault) == [fault[0]] + RuleOf(fault[1..]);
        assert RuleOf(fault)[1..] == RuleOf(fault[1..]);
      }
    }
  }

  /** The faults tracked in a compile are those of its diagnostics whose rule is, up to case, one of two. */
  lemma TrackedExactly(c: Compile, f: string)
    ensures f in Tracked(c) <==>
      exists d :: d in c.diagnostics && d.fault == f && Lower(d.rule) in {"no-unused-params", "bcp035"}
  {
    LowerOfRules();
    if d :| d in c.diagnostics && d.fault == f && Lower(d.rule) in {"no-unused-params", "bcp035"} {
      var i :| 0 <= i < |c.diagnostics| && c.diagnostics[i] == d;
      assert f in Tracked(c);
    }
  }

  lemma LowerOfRules()
    ensures Lower(RULE_IDS[0]) == "no-unused-params" && Lower(RULE_IDS[1]) == "bcp035"
  {
  }

  predicate IsOf(d: Diagnostic, rule: string, warningsOnly: bool) {
    d.rule == rule && (warningsOnly ==> Lower(d.level) != "error")
  }

  function Places(diagnostics: seq<Diagnostic>, rule: string, warningsOnly: bool): set<nat> {
    set i: nat | i < |diagnostics| && IsOf(diagnostics[i], rule, warningsOnly)
  }

  lemma OneMorePlace(diagnostics: seq<Diagnostic>, rule: string, warningsOnly: bool)
    requires diagnostics != []
    ensures var last := |diagnostics| - 1;
      Places(diagnostics, rule, warningsOnly) == Places(diagnostics[..last], rule, warningsOnly)
        + if IsOf(diagnostics[last], rule, warningsOnly) then {last} else {}
  {
    hide IsOf;
  }

  /** How often a rule is counted is how many diagnostics are of that rule, errors left out or not. */
  lemma {:induction false} TimesExactly(diagnostics: seq<Diagnostic>, rule: string, warningsOnly: bool)
    ensures Times(diagnostics, rule, warningsOnly) == |Places(diagnostics, rule, warningsOnly)|
  {
    hide Lower, Places;
    if diagnostics == [] {
      NoPlaces(rule, warningsOnly);
    } else {
      var last := |diagnostics| - 1;
      TimesExactly(diagnostics[..last], rule, warningsOnly);
      OneMorePlace(diagnostics, rule, warningsOnly);
      NotAPlace(diagnostics[..last], rule, warningsOnly, last);
    }
  }

  lemma NoPlaces(rule: string, warningsOnly: bool)
    ensures Places([], rule, warningsOnly) == {}
  {
  }

  lemma NotAPlace(diagnostics: seq<Diagnostic>, rule: string, warningsOnly: bool, i: nat)
    requires i >= |diagnostics|
    ensures i !in Places(diagnostics, rule, warningsOnly)
  {
  }

  /** A run is accepted if and only if all of this was printed: a full baseline whose tally is in order, names
      just its tracked faults, and some; a first turn that names the rules; two validated turns; one container
      at all four checkpoints; a file written, changed, intact, with nothing silenced; tallies in order that
      split the authored faults into fixed ones, some, and remaining ones, with none introduced; a full final
      compile whose tracked faults are the remaining ones and that reports no other rule more often; one
      sandbox disposed of and nothing left. */
  lemma AcceptanceExactly(o: Output)
    requires o.Complete()
    ensures Healthy(o) <==>
      && o.baseline.Some? && o.baseline.value.phases == {"build", "lint"} && o.baselineTally.Some?
      && InOrder(o.baselineTally.value)
      && Names(o.baselineTally.value) == Tracked(o.baseline.value) != {}
      && o.turnOne.Some?
      && (forall f :: f in Tracked(o.baseline.value) ==> Contains(Lower(o.turnOne.value), Lower(RuleOf(f))))
      && (forall i :: 0 <= i < 2 ==> o.calls[i].Some? && o.calls[i].value >= 1)
      && (exists id :: IsDockerId(id) && forall i :: 0 <= i < 4 ==> o.counts[i] == [Count(1, id)])
      && o.work.Some?
      && var w := o.work.value;
      && w.authored == w.changed == w.intact == Some(true) && w.suppressed == Some(0)
      && w.fixed.Some? && w.remaining.Some? && w.introduced.Some?
      && InOrder(w.fixed.value) && InOrder(w.remaining.value) && InOrder(w.introduced.value)
      && Names(w.fixed.value) + Names(w.remaining.value) == Tracked(o.baseline.value)
      && Names(w.fixed.value) !! Names(w.remaining.value)
      && Names(w.fixed.value) != {} && Names(w.introduced.value) == {}
      && o.final.Some? && o.final.value.phases == {"build", "lint"}
      && Tracked(o.final.value) == Names(w.remaining.value)
      && (forall rule :: !IsTracked(rule) && Lower(rule) != "use-recent-api-versions" ==>
            Times(o.final.value.diagnostics, rule, false) <= Times(o.baseline.value.diagnostics, rule, true))
      && o.footer == Some(Footer(1, 0)) && !o.notDisposed
  {
    hide Tracked, Names, Sound, InOrder, RuleOf, IsTracked, Times, Lower, IsDockerId, Contains;
    LowerOfTolerated();
    forall t: Tally
      ensures Sound(t) <==> InOrder(t)
    {
      SoundExactly(t);
    }
    WarmExactly(o);
    hide Warm;
    if o.work.Some? && o.work.value.fixed.Some? && o.work.value.remaining.Some? && o.final.Some? {
      JustRemaining(Names(o.work.value.fixed.value), Names(o.work.value.remaining.value), Tracked(o.final.value));
    }
  }

  /** Another attempt is worth it, whatever the model did, if and only if the rest was printed as it should:
      the model's own half is that there is a fault at all, that turn 1 names the rules, that the file is
      intact and nothing silenced, that something is fixed and nothing introduced. */
  lemma SuiteHealthyExactly(o: Output)
    requires o.Complete()
    ensures SuiteHealthy(o) <==>
      && o.baseline.Some? && o.baseline.value.phases == {"build", "lint"} && o.baselineTally.Some?
      && InOrder(o.baselineTally.value) && Names(o.baselineTally.value) == Tracked(o.baseline.value)
      && o.turnOne.Some?
      && (forall i :: 0 <= i < 2 ==> o.calls[i].Some? && o.calls[i].value >= 1)
      && (exists id :: IsDockerId(id) && forall i :: 0 <= i < 4 ==> o.counts[i] == [Count(1, id)])
      && o.work.Some?
      && var w := o.work.value;
      && w.authored == w.changed == Some(true) && w.intact.Some? && w.suppressed.Some?
      && w.fixed.Some? && w.remaining.Some? && w.introduced.Some?
      && InOrder(w.fixed.value) && InOrder(w.remaining.value) && InOrder(w.introduced.value)
      && o.final.Some? && o.final.value.phases == {"build", "lint"}
      && var (f, r, i, t) :=
           (Names(w.fixed.value), Names(w.remaining.value), Names(w.introduced.value), Tracked(o.final.value));
      && f !! r && f !! i && r !! i
      && (Tracked(o.baseline.value) != {} ==> f + r == Tracked(o.baseline.value))
      && f !! t && r <= t && i <= t && t <= f + r + i
      && o.footer == Some(Footer(1, 0)) && !o.notDisposed
  {
    hide Tracked, Names, Sound, InOrder, RuleOf, IsTracked, Times, Lower, IsDockerId, Contains;
    forall t: Tally
      ensures Sound(t) <==> InOrder(t)
    {
      SoundExactly(t);
    }
    WarmExactly(o);
    hide Warm;
  }

  lemma LowerOfTolerated()
    ensures Lower(TOLERATED_RULE) == "use-recent-api-versions"
  {
  }

  lemma WarmExactly(o: Output)
    requires o.Complete()
    ensures Warm(o) <==>
      && (forall i :: 0 <= i < 2 ==> o.calls[i].Some? && o.calls[i].value >= 1)
      && exists id :: IsDockerId(id) && forall i :: 0 <= i < 4 ==> o.counts[i] == [Count(1, id)]
  {
    hide IsDockerId;
    if id :| IsDockerId(id) && forall i :: 0 <= i < 4 ==> o.counts[i] == [Count(1, id)] {
      assert o.counts[0][0].ids == id;
    }
  }

  lemma JustRemaining(fixed: set<string>, remaining: set<string>, reported: set<string>)
    ensures fixed !! remaining ==>
      (fixed !! reported && remaining <= reported && reported <= remaining + fixed <==> reported == remaining)
  {
  }
}
