/** The observable behaviour of a cleanup script: the lines it logs or prints
    and the SDK calls it issues, in order. SDK responses are inputs, and the
    calls that fail are given as a set of requests. */
module Effects {

  /** The SDK client methods the scripts call. */
  datatype Api =
    | DeregisterImage
    | DeleteKeyPair
    | DeleteTrail
    | DeleteSnapshot
    | DeleteVolume
    | ReleaseAddress
    | DeletePlacementGroup
    | ListLocks
    | DeleteSecurityGroup
    | DeleteVault
    | DeleteResourceGroup

  /** One SDK call: the method and the resource name or id it is given. */
  datatype Request = Request(api: Api, target: string)

  /** What a log line reports; the exact wording is not modelled. */
  datatype Note =
    | Deleting
    | Skipped
    | HasLocks
    | NoLocks
    | SkippedLocked
    | SkippedDryRun
    | Succeeded
    | Failed

  datatype Effect =
    | Log(dry: bool, note: Note, subject: string)  // through the script's `log`
    | Print(note: Note, subject: string)           // a bare `print`
    | Call(req: Request)                           // an SDK call, made whether or not it fails

  /** The effects of a function that may end with an uncaught SDK exception. */
  datatype Run = Run(effects: seq<Effect>, raised: bool)

  /** The tag the dry-run `log` puts in front of every line. */
  const DryRunTag: string := "[DRYRUN] "

  /** The line the `log` function chosen for the mode writes for `text`. */
  function Line(dry: bool, text: string): (r: string)
    ensures dry ==> DryRunTag <= r && r[|DryRunTag|..] == text
    ensures !dry ==> r == text
  {
    if dry then DryRunTag + text else text
  }

  // ---------------------------------------------------------------------------
  // Projections of a trace

  /** The target of `e` if it is a call to `api`. */
  function TargetOf(e: Effect, api: Api): seq<string>
  {
    if e.Call? && e.req.api == api then [e.req.target] else []
  }

  /** The subject of `e` if it is a log line carrying `note`. */
  function LogOf(e: Effect, note: Note): seq<string>
  {
    if e.Log? && e.note == note then [e.subject] else []
  }

  /** The subject of `e` if it is a printed line carrying `note`. */
  function PrintOf(e: Effect, note: Note): seq<string>
  {
    if e.Print? && e.note == note then [e.subject] else []
  }

  /** Targets of the calls to `api`, in order. */
  function Targets(effects: seq<Effect>, api: Api): seq<string>
  {
    if effects == [] then [] else TargetOf(effects[0], api) + Targets(effects[1..], api)
  }

  /** Subjects of the log lines carrying `note`, in order. */
  function Logged(effects: seq<Effect>, note: Note): seq<string>
  {
    if effects == [] then [] else LogOf(effects[0], note) + Logged(effects[1..], note)
  }

  /** Subjects of the printed lines carrying `note`, in order. */
  function Printed(effects: seq<Effect>, note: Note): seq<string>
  {
    if effects == [] then [] else PrintOf(effects[0], note) + Printed(effects[1..], note)
  }

  /** Every log line was written by the logger of one mode. */
  predicate LogsIn(effects: seq<Effect>, dry: bool)
  {
    forall e :: e in effects && e.Log? ==> e.dry == dry
  }

  /** Every call to `api` comes right after a log line announcing its target. */
  predicate Announced(effects: seq<Effect>, api: Api, dry: bool, note: Note)
  {
    forall i :: 0 <= i < |effects| && effects[i].Call? && effects[i].req.api == api ==>
      0 < i && effects[i - 1] == Log(dry, note, effects[i].req.target)
  }

  /** Calls are issued in non-decreasing `stage`. */
  predicate InStages(effects: seq<Effect>, stage: Api -> nat)
  {
    forall i, j :: 0 <= i < j < |effects| && effects[i].Call? && effects[j].Call? ==>
      stage(effects[i].req.api) <= stage(effects[j].req.api)
  }

  /** Every call in `effects` is to an api of stage `k`. */
  predicate AllInStage(effects: seq<Effect>, stage: Api -> nat, k: nat)
  {
    forall e :: e in effects && e.Call? ==> stage(e.req.api) == k
  }

  /** One `note` log line per id, in order. */
  function LogEach(dry: bool, note: Note, ids: seq<string>): (r: seq<Effect>)
    ensures |r| == |ids|
  {
    if ids == [] then [] else [Log(dry, note, ids[0])] + LogEach(dry, note, ids[1..])
  }

  /** Per id, in order: a `note` log line, then the call to `api` on that id. */
  function AnnounceEach(dry: bool, note: Note, api: Api, ids: seq<string>): (r: seq<Effect>)
    ensures |r| == 2 * |ids|
  {
    if ids == [] then []
    else [Log(dry, note, ids[0]), Call(Request(api, ids[0]))] + AnnounceEach(dry, note, api, ids[1..])
  }

  // ---------------------------------------------------------------------------
  // Failures

  /** Some call to `api` on one of `ids` fails. */
  predicate AnyFails(api: Api, ids: seq<string>, failing: set<Request>)
  {
    exists id :: id in ids && Request(api, id) in failing
  }

  /** The ids a loop without error handling reaches: all of them, or those up
      to and including the first whose call raises. */
  function UpToFirstFailure(api: Api, ids: seq<string>, failing: set<Request>): (r: seq<string>)
    ensures r <= ids
    ensures !AnyFails(api, ids, failing) ==> r == ids
    ensures AnyFails(api, ids, failing) ==>
      r != [] && Request(api, r[|r| - 1]) in failing
      && forall k :: 0 <= k < |r| - 1 ==> Request(api, r[k]) !in failing
  {
    if ids == [] then []
    else if Request(api, ids[0]) in failing then [ids[0]]
    else
      var rest := UpToFirstFailure(api, ids[1..], failing);
      assert AnyFails(api, ids[1..], failing) <==> AnyFails(api, ids, failing) by {
        if AnyFails(api, ids, failing) {
          var id :| id in ids && Request(api, id) in failing;
          assert id in ids[1..];
        }
      }
      [ids[0]] + rest
  }

  /** The ids whose calls to `api` fail, in order. */
  function FailingOf(api: Api, ids: seq<string>, failing: set<Request>): seq<string>
  {
    if ids == [] then []
    else (if Request(api, ids[0]) in failing then [ids[0]] else []) + FailingOf(api, ids[1..], failing)
  }

  /** The ids whose calls to `api` succeed, in order. */
  function PassingOf(api: Api, ids: seq<string>, failing: set<Request>): seq<string>
  {
    if ids == [] then []
    else (if Request(api, ids[0]) !in failing then [ids[0]] else []) + PassingOf(api, ids[1..], failing)
  }

  // ---------------------------------------------------------------------------
  // Composition lemmas

  lemma {:induction false} TargetsAppend(a: seq<Effect>, b: seq<Effect>, api: Api)
    ensures Targets(a + b, api) == Targets(a, api) + Targets(b, api)
  {
    if a == [] {
      assert a + b == b;
    } else {
      assert (a + b)[1..] == a[1..] + b;
      TargetsAppend(a[1..], b, api);
    }
  }

  lemma {:induction false} LoggedAppend(a: seq<Effect>, b: seq<Effect>, note: Note)
    ensures Logged(a + b, note) == Logged(a, note) + Logged(b, note)
  {
    if a == [] {
      assert a + b == b;
    } else {
      assert (a + b)[1..] == a[1..] + b;
      LoggedAppend(a[1..], b, note);
    }
  }

  lemma {:induction false} PrintedAppend(a: seq<Effect>, b: seq<Effect>, note: Note)
    ensures Printed(a + b, note) == Printed(a, note) + Printed(b, note)
  {
    if a == [] {
      assert a + b == b;
    } else {
      assert (a + b)[1..] == a[1..] + b;
      PrintedAppend(a[1..], b, note);
    }
  }

  /** The projections of a one-effect trace. */
  lemma Project1(x: Effect, api: Api, note: Note)
    ensures Targets([x], api) == TargetOf(x, api)
    ensures Logged([x], note) == LogOf(x, note)
    ensures Printed([x], note) == PrintOf(x, note)
  {
    assert [x][1..] == [];
  }

  /** The projections of a two-effect trace. */
  lemma Project2(x: Effect, y: Effect, api: Api, note: Note)
    ensures Targets([x, y], api) == TargetOf(x, api) + TargetOf(y, api)
    ensures Logged([x, y], note) == LogOf(x, note) + LogOf(y, note)
    ensures Printed([x, y], note) == PrintOf(x, note) + PrintOf(y, note)
  {
    assert [x, y][1..] == [y];
    Project1(y, api, note);
  }

  /** The calls of a three-effect trace. */
  lemma Targets3(x: Effect, y: Effect, z: Effect, api: Api)
    ensures Targets([x, y, z], api) == TargetOf(x, api) + TargetOf(y, api) + TargetOf(z, api)
  {
    var t := [y, z];
    assert [x, y, z] == [x] + t;
    assert ([x] + t)[1..] == t;
    assert t[1..] == [z];
    assert [z][1..] == [];
    var A, B, C := TargetOf(x, api), TargetOf(y, api), TargetOf(z, api);
    assert Targets([z], api) == C;
    assert Targets(t, api) == B + C;
    assert Targets([x, y, z], api) == A + (B + C);
  }

  /** The log lines of a three-effect trace. */
  lemma Logged3(x: Effect, y: Effect, z: Effect, note: Note)
    ensures Logged([x, y, z], note) == LogOf(x, note) + LogOf(y, note) + LogOf(z, note)
  {
    var t := [y, z];
    assert [x, y, z] == [x] + t;
    assert ([x] + t)[1..] == t;
    assert t[1..] == [z];
    assert [z][1..] == [];
    var A, B, C := LogOf(x, note), LogOf(y, note), LogOf(z, note);
    assert Logged([z], note) == C;
    assert Logged(t, note) == B + C;
    assert Logged([x, y, z], note) == A + (B + C);
  }

  /** The printed lines of a three-effect trace. */
  lemma Printed3(x: Effect, y: Effect, z: Effect, note: Note)
    ensures Printed([x, y, z], note) == PrintOf(x, note) + PrintOf(y, note) + PrintOf(z, note)
  {
    var t := [y, z];
    assert [x, y, z] == [x] + t;
    assert ([x] + t)[1..] == t;
    assert t[1..] == [z];
    assert [z][1..] == [];
    var A, B, C := PrintOf(x, note), PrintOf(y, note), PrintOf(z, note);
    assert Printed([z], note) == C;
    assert Printed(t, note) == B + C;
    assert Printed([x, y, z], note) == A + (B + C);
  }

  lemma AnyFailsAppend(api: Api, a: seq<string>, b: seq<string>, failing: set<Request>)
    ensures AnyFails(api, a + b, failing) <==> AnyFails(api, a, failing) || AnyFails(api, b, failing)
  {
    if AnyFails(api, a + b, failing) {
      var id :| id in a + b && Request(api, id) in failing;
      assert id in a || id in b;
    }
    if AnyFails(api, a, failing) {
      var id :| id in a && Request(api, id) in failing;
      assert id in a + b;
    }
    if AnyFails(api, b, failing) {
      var id :| id in b && Request(api, id) in failing;
      assert id in a + b;
    }
  }

  /** Unfolds UpToFirstFailure over a sequence with a known first id. */
  lemma UpToFirstFailureCons(api: Api, id: string, ids: seq<string>, failing: set<Request>)
    ensures UpToFirstFailure(api, [id] + ids, failing)
      == if Request(api, id) in failing then [id] else [id] + UpToFirstFailure(api, ids, failing)
  {
    assert ([id] + ids)[0] == id && ([id] + ids)[1..] == ids;
  }

  lemma AnnouncedAppend(a: seq<Effect>, b: seq<Effect>, api: Api, dry: bool, note: Note)
    requires Announced(a, api, dry, note) && Announced(b, api, dry, note)
    ensures Announced(a + b, api, dry, note)
  {
    var ab := a + b;
    forall i | 0 <= i < |ab| && ab[i].Call? && ab[i].req.api == api
      ensures 0 < i && ab[i - 1] == Log(dry, note, ab[i].req.target)
    {
      if i < |a| {
        assert ab[i] == a[i] && ab[i - 1] == a[i - 1];
      } else {
        assert ab[i] == b[i - |a|];
        assert 0 < i - |a|;
        assert ab[i - 1] == b[i - |a| - 1];
      }
    }
  }

  lemma AllInStageAppend(a: seq<Effect>, b: seq<Effect>, stage: Api -> nat, k: nat)
    requires AllInStage(a, stage, k) && AllInStage(b, stage, k)
    ensures AllInStage(a + b, stage, k)
  {
  }

  lemma InStagesAppend(a: seq<Effect>, b: seq<Effect>, stage: Api -> nat, k: nat)
    requires InStages(a, stage)
    requires forall e :: e in a && e.Call? ==> stage(e.req.api) <= k
    requires AllInStage(b, stage, k)
    ensures InStages(a + b, stage)
  {
    var ab := a + b;
    forall i, j | 0 <= i < j < |ab| && ab[i].Call? && ab[j].Call?
      ensures stage(ab[i].req.api) <= stage(ab[j].req.api)
    {
      if j < |a| {
        assert ab[i] == a[i] && ab[j] == a[j];
      } else if i < |a| {
        assert ab[i] == a[i] && ab[i] in a;
        assert ab[j] == b[j - |a|] && ab[j] in b;
      } else {
        assert ab[i] == b[i - |a|] && ab[i] in b;
        assert ab[j] == b[j - |a|] && ab[j] in b;
      }
    }
  }
}
