/** Deploying, rolling back and listing the versions of one workflow. */
module Versions {
  datatype Version = Version(number: int, definition: string, active: bool)

  /** A workflow's row and its version rows in the order they were inserted. */
  datatype State = State(versions: seq<Version>, number: int, definition: string)

  predicate Has(vs: seq<Version>, number: int) {
    exists i | 0 <= i < |vs| :: vs[i].number == number
  }

  /** The version rows are unique per number: the table's unique index. */
  ghost predicate UniqueIndex(vs: seq<Version>) {
    forall i, j | 0 <= i < j < |vs| :: vs[i].number != vs[j].number
  }

  function Deactivated(vs: seq<Version>): seq<Version> {
    seq(|vs|, i requires 0 <= i < |vs| => vs[i].(active := false))
  }

  /** The rows with exactly those of one number active. */
  function Activated(vs: seq<Version>, number: int): seq<Version> {
    seq(|vs|, i requires 0 <= i < |vs| => vs[i].(active := vs[i].number == number))
  }

  /** Creating a workflow stores version 1, and the demo seed a version of its own, neither active
      until something is deployed. */
  function Created(number: int, definition: string): State {
    State([Version(number, definition, false)], number, definition)
  }

  /** A webhook nobody listens to creates a workflow at version 1 without storing any version. */
  function Ingressed(definition: string): State {
    State([], 1, definition)
  }

  datatype Operation = Deploy(definition: string) | Rollback(target: int) | List

  /** A deploy clashes with the unique index, and leaves everything as it was, when the number
      after the current one is taken; a rollback fails when its target does not exist. */
  predicate Succeeds(s: State, op: Operation) {
    match op
    case Deploy(_) => !Has(s.versions, s.number + 1)
    case Rollback(target) => Has(s.versions, target)
    case List => true
  }

  function DefinitionOf(vs: seq<Version>, number: int): string
    requires Has(vs, number)
  {
    if vs[|vs| - 1].number == number then vs[|vs| - 1].definition else DefinitionOf(vs[..|vs| - 1], number)
  }

  function Apply(s: State, op: Operation): State {
    if !Succeeds(s, op) then s
    else match op
      case Deploy(definition) =>
        State(Deactivated(s.versions) + [Version(s.number + 1, definition, true)], s.number + 1, definition)
      case Rollback(target) => State(Activated(s.versions, target), target, DefinitionOf(s.versions, target))
      case List =>
        if s.versions == [] then s.(versions := [Version(s.number, s.definition, true)]) else s
  }

  lemma {:induction false} DefinitionAt(vs: seq<Version>, at: nat)
    requires UniqueIndex(vs) && at < |vs|
    ensures Has(vs, vs[at].number) && DefinitionOf(vs, vs[at].number) == vs[at].definition
  {
    if at < |vs| - 1 {
      DefinitionAt(vs[..|vs| - 1], at);
    }
  }

  class WorkflowRepository {
    var versions: seq<Version>
    var number: int
    var definition: string

    ghost function Now(): State
      reads this
    {
      State(versions, number, definition)
    }

    constructor (number: int, definition: string)
      ensures Now() == Created(number, definition)
    {
      this.number, this.definition := number, definition;
      versions := [Version(number, definition, false)];
    }

    constructor Ingress(definition: string)
      ensures Now() == Ingressed(definition)
    {
      this.definition := definition;
      versions, number := [], 1;
    }

    /** The bulk update that marks every row inactive. */
    method Deactivate()
      modifies this`versions
      ensures versions == Deactivated(old(versions))
    {
      var was := versions;
      for i := 0 to |was|
        invariant |versions| == |was|
        invariant forall j | 0 <= j < |was| :: versions[j] == if j < i then was[j].(active := false) else was[j]
      {
        versions := versions[i := versions[i].(active := false)];
      }
    }

    method Find(target: int) returns (found: bool, at: nat)
      ensures found == Has(versions, target)
      ensures found ==> at < |versions| && versions[at].number == target
    {
      found, at := false, 0;
      while at < |versions|
        invariant at <= |versions| && forall j | 0 <= j < at :: versions[j].number != target
      {
        if versions[at].number == target {
          return true, at;
        }
        at := at + 1;
      }
    }

    method DeployVersion(definition: string) returns (ok: bool)
      modifies this
      ensures ok == Succeeds(old(Now()), Deploy(definition))
      ensures Now() == Apply(old(Now()), Deploy(definition))
    {
      var taken, _ := Find(number + 1);
      if taken {
        return false;
      }
      Deactivate();
      versions := versions + [Version(number + 1, definition, true)];
      number := number + 1;
      this.definition := definition;
      ok := true;
    }

    method RollbackToVersion(target: int) returns (ok: bool)
      requires UniqueIndex(versions)
      modifies this
      ensures ok == Succeeds(old(Now()), Rollback(target))
      ensures Now() == Apply(old(Now()), Rollback(target))
    {
      var found, at := Find(target);
      if !found {
        return false;
      }
      DefinitionAt(versions, at);
      Deactivate();
      versions := versions[at := versions[at].(active := true)];
      assert versions == Activated(old(versions), target);
      number := versions[at].number;
      definition := versions[at].definition;
      ok := true;
    }

    /** Listing the versions of a workflow without any stores the current one. */
    method ListVersions()
      modifies this`versions
      ensures Now() == Apply(old(Now()), List)
    {
      if versions == [] {
        versions := [Version(number, definition, true)];
      }
    }
  }

  // --- Every run of deploys, rollbacks and listings ---

  function After(start: State, ops: seq<Operation>): State {
    if ops == [] then start else Apply(After(start, ops[..|ops| - 1]), ops[|ops| - 1])
  }

  /** Where the current version is stored. */
  function Current(s: State): int
    requires s.versions != []
  {
    s.number - s.versions[0].number
  }

  /** The stored versions are numbered consecutively, from any first number; unless none is stored,
      the current number is one of them and the workflow's definition is that version's; no other
      version is active. */
  ghost predicate Coherent(s: State) {
    && (forall i | 0 <= i < |s.versions| :: s.versions[i].number == s.versions[0].number + i)
    && (s.versions != [] ==> 0 <= Current(s) < |s.versions| && s.versions[Current(s)].definition == s.definition)
    && forall i | 0 <= i < |s.versions| && s.versions[i].active :: i == Current(s)
  }

  /** No version is stored, or the current one is the newest. */
  predicate AtTheTop(s: State) {
    s.versions == [] || s.number == s.versions[|s.versions| - 1].number
  }

  /** However a workflow comes into being: with its one version stored and not active, or, by a webhook,
      at version 1 with none stored. */
  lemma StartsAreCoherent(number: int, definition: string)
    ensures var created, ingressed := Created(number, definition), Ingressed(definition);
            && Coherent(created) && Coherent(ingressed)
            && created.number == number && ingressed.number == 1
            && created.definition == ingressed.definition == definition
            && |created.versions| == 1 && created.versions[0] == Version(number, definition, false)
            && |ingressed.versions| == 0
  {
  }

  lemma NextIsFreeAtTheTop(s: State)
    requires Coherent(s)
    ensures !Has(s.versions, s.number + 1) <==> AtTheTop(s)
  {
    if !AtTheTop(s) {
      assert s.versions[Current(s) + 1].number == s.number + 1;
    }
  }

  lemma ApplyKeepsCoherent(s: State, op: Operation)
    requires Coherent(s)
    ensures Coherent(Apply(s, op))
    ensures Apply(s, op).versions == [] <==> s.versions == [] && op.Rollback?
  {
    match op
    case Deploy(_) =>
      NextIsFreeAtTheTop(s);
    case Rollback(target) =>
      if Succeeds(s, op) {
        var i :| 0 <= i < |s.versions| && s.versions[i].number == target;
        DefinitionAt(s.versions, i);
      }
    case List =>
  }

  lemma {:induction false} RunIsCoherent(start: State, ops: seq<Operation>)
    requires Coherent(start)
    ensures Coherent(After(start, ops))
    ensures After(start, ops).versions == [] <==> start.versions == [] && forall i | 0 <= i < |ops| :: ops[i].Rollback?
  {
    if ops != [] {
      var n := |ops| - 1;
      RunIsCoherent(start, ops[..n]);
      ApplyKeepsCoherent(After(start, ops[..n]), ops[n]);
      assert ops == ops[..n] + [ops[n]];
    }
  }

  /** The workflow's definition is stored under its current number. */
  predicate CurrentIsStored(s: State) {
    Has(s.versions, s.number) && DefinitionOf(s.versions, s.number) == s.definition
  }

  /** From any coherent start, in every reachable state at most one version is active, and it is the
      current one with the workflow's definition. That definition is stored under the current number
      unless nothing ever was: no version at the start, and only rollbacks since. */
  lemma AtMostOneActive(start: State, ops: seq<Operation>)
    requires Coherent(start)
    ensures var s := After(start, ops);
            && (forall i, j | 0 <= i < |s.versions| && 0 <= j < |s.versions| ::
                  s.versions[i].active && s.versions[j].active ==> i == j)
            && (forall i | 0 <= i < |s.versions| && s.versions[i].active ::
                  s.versions[i].number == s.number && s.versions[i].definition == s.definition)
            && (CurrentIsStored(s) <==> start.versions != [] || exists i | 0 <= i < |ops| :: !ops[i].Rollback?)
  {
    RunIsCoherent(start, ops);
    var s := After(start, ops);
    if s.versions != [] {
      DefinitionAt(s.versions, Current(s));
    }
  }

  /** A deploy succeeds exactly when the current version is the newest one stored, or none is. */
  lemma DeploysExactlyAtTheTop(start: State, ops: seq<Operation>, next: string)
    requires Coherent(start)
    ensures var s := After(start, ops);
            && (Succeeds(s, Deploy(next)) <==> AtTheTop(s))
            && (!Succeeds(s, Deploy(next)) ==> Apply(s, Deploy(next)) == s)
  {
    RunIsCoherent(start, ops);
    NextIsFreeAtTheTop(After(start, ops));
  }

  /** What is stored stays: later operations only append versions and move the active mark. */
  lemma {:induction false} StoredForEver(start: State, ops: seq<Operation>, more: seq<Operation>)
    ensures var (s, s') := (After(start, ops), After(start, ops + more));
            && |s.versions| <= |s'.versions| <= |s.versions| + |more|
            && forall i | 0 <= i < |s.versions| ::
                 s'.versions[i].number == s.versions[i].number && s'.versions[i].definition == s.versions[i].definition
  {
    if more == [] {
      assert ops + more == ops;
    } else {
      var n := |more| - 1;
      var all := ops + more;
      assert all[..|all| - 1] == ops + more[..n] && all[|all| - 1] == more[n];
      StoredForEver(start, ops, more[..n]);
    }
  }

  /** Rolled back below the newest version, a workflow is stuck: no number of deploys changes
      anything until a rollback goes to the newest version again. */
  lemma {:induction false} RollbackBlocksDeploys(start: State, ops: seq<Operation>, deploys: seq<Operation>)
    requires Coherent(start) && !AtTheTop(After(start, ops))
    requires forall i | 0 <= i < |deploys| :: deploys[i].Deploy?
    ensures After(start, ops + deploys) == After(start, ops)
  {
    if deploys == [] {
      assert ops + deploys == ops;
    } else {
      var n := |deploys| - 1;
      var all := ops + deploys;
      assert all[..|all| - 1] == ops + deploys[..n] && all[|all| - 1] == deploys[n];
      RollbackBlocksDeploys(start, ops, deploys[..n]);
      DeploysExactlyAtTheTop(start, ops, deploys[n].definition);
      hide Apply, Succeeds, Coherent, AtTheTop;
    }
  }

  /** What a successful operation leaves: after a deploy the new version, numbered one on, is the only
      active one, and after a rollback the target is; either is current with its definition. What was
      stored before keeps number and definition. */
  lemma OperationsActivate(s: State, op: Operation)
    requires Coherent(s) && Succeeds(s, op) && !op.List?
    ensures var s' := Apply(s, op);
            var target := if op.Deploy? then s.number + 1 else op.target;
            && s'.number == target && |s'.versions| == |s.versions| + (if op.Deploy? then 1 else 0)
            && (exists i | 0 <= i < |s'.versions| :: s'.versions[i].number == target)
            && (forall i | 0 <= i < |s'.versions| ::
                  (s'.versions[i].active <==> s'.versions[i].number == target)
                  && (s'.versions[i].number == target ==> s'.versions[i].definition == s'.definition))
            && (op.Deploy? ==> s'.definition == op.definition)
            && forall i | 0 <= i < |s.versions| ::
                 s'.versions[i].number == s.versions[i].number && s'.versions[i].definition == s.versions[i].definition
  {
    match op
    case Deploy(_) =>
      assert Apply(s, op).versions[|s.versions|].number == s.number + 1;
    case Rollback(target) =>
      var i :| 0 <= i < |s.versions| && s.versions[i].number == target;
      assert Apply(s, op).versions[i].number == target;
      DefinitionAt(s.versions, i);
  }

  // --- The definition a workflow starts with ---

  /** The first operation that stores anything is a listing. */
  ghost predicate ListedFirst(ops: seq<Operation>) {
    exists i | 0 <= i < |ops| :: ops[i].List? && forall j | 0 <= j < i :: ops[j].Rollback?
  }

  lemma ListedFirstSnoc(ops: seq<Operation>)
    requires ops != []
    ensures var n := |ops| - 1;
            ListedFirst(ops) <==>
            ListedFirst(ops[..n]) || (ops[n].List? && forall j | 0 <= j < n :: ops[j].Rollback?)
  {
    var n := |ops| - 1;
    if ListedFirst(ops[..n]) {
      var i :| 0 <= i < n && ops[..n][i].List? && forall j | 0 <= j < i :: ops[..n][j].Rollback?;
      assert ops[i].List? && forall j | 0 <= j < i :: ops[j] == ops[..n][j];
    }
    if ListedFirst(ops) {
      var i :| 0 <= i < |ops| && ops[i].List? && forall j | 0 <= j < i :: ops[j].Rollback?;
      assert i < n ==> ops[..n][i].List? && forall j | 0 <= j < i :: ops[..n][j].Rollback?;
    }
  }

  lemma ApplyKeepsFirst(s: State, op: Operation)
    requires Coherent(s)
    ensures var s' := Apply(s, op);
            if s.versions != [] then
              s'.versions != [] && s'.versions[0].number == s.versions[0].number
              && s'.versions[0].definition == s.versions[0].definition
            else match op
              case Deploy(_) => s'.versions != [] && s'.versions[0].number == s.number + 1
              case Rollback(_) => s' == s
              case List => s'.versions == [Version(s.number, s.definition, true)]
  {
  }

  /** What became of the definition a workflow started with, when none was stored. */
  lemma {:induction false} FirstRow(start: State, ops: seq<Operation>)
    requires start.versions == []
    ensures var s := After(start, ops);
            if s.versions == [] then s == start && !ListedFirst(ops)
            else if ListedFirst(ops) then s.versions[0].number == start.number && s.versions[0].definition == start.definition
            else s.versions[0].number == start.number + 1
  {
    if ops != [] {
      var n := |ops| - 1;
      FirstRow(start, ops[..n]);
      RunIsCoherent(start, ops[..n]);
      ListedFirstSnoc(ops);
      hide Apply, ListedFirst, Coherent;
      ApplyKeepsFirst(After(start, ops[..n]), ops[n]);
    }
  }

  /** A workflow that starts without a version can be rolled back to its first definition exactly
      when its versions were listed before the first deploy. */
  lemma FirstDefinitionKeptExactly(start: State, ops: seq<Operation>)
    requires start.versions == []
    ensures var s := After(start, ops);
            && (Succeeds(s, Rollback(start.number)) <==> ListedFirst(ops))
            && (ListedFirst(ops) ==> Apply(s, Rollback(start.number)).definition == start.definition)
  {
    var s := After(start, ops);
    RunIsCoherent(start, ops);
    FirstRow(start, ops);
    hide After, ListedFirst;
    if s.versions != [] {
      DefinitionAt(s.versions, 0);
    }
  }

  /** A workflow created by a webhook and then deployed has lost its first definition: there is
      nothing to roll back to. */
  lemma IngressLosesItsDefinition(first: string, next: string)
    ensures !CurrentIsStored(Ingressed(first))
    ensures var s := After(Ingressed(first), [Deploy(next)]);
            && s == State([Version(2, next, true)], 2, next)
            && !Succeeds(s, Rollback(1)) && Apply(s, Rollback(1)) == s
  {
    var ops := [Deploy(next)];
    assert ops[..0] == [] && After(Ingressed(first), ops[..0]) == Ingressed(first);
    assert Deactivated([]) == [] && [] + [Version(2, next, true)] == [Version(2, next, true)];
  }
}
