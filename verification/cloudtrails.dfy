/** delete_aws_cloud_trails: delete the CloudTrail trails whose name starts
    with a prefix, or every trail when no prefix is given. */
module CloudTrails {
  import opened Wrappers
  import opened Effects

  /** `not prefix or trail_name.startswith(prefix)`: a missing or empty prefix
      selects every trail. */
  predicate Selects(prefix: Option<string>, name: string)
  {
    prefix.None? || prefix.value == "" || prefix.value <= name
  }

  /** Names of the selected trails, in listing order. */
  function SelectedNames(names: seq<string>, prefix: Option<string>): seq<string>
  {
    if names == [] then []
    else (if Selects(prefix, names[0]) then [names[0]] else []) + SelectedNames(names[1..], prefix)
  }

  /** Names of the trails that are not selected, in listing order. */
  function UnselectedNames(names: seq<string>, prefix: Option<string>): seq<string>
  {
    if names == [] then []
    else (if Selects(prefix, names[0]) then [] else [names[0]]) + UnselectedNames(names[1..], prefix)
  }

  /** What one loop iteration emits; a failing delete is caught and printed. */
  function TrailEffects(name: string, prefix: Option<string>, live: bool, failing: set<Request>): seq<Effect>
  {
    if Selects(prefix, name) then
      if !live then [Log(true, Deleting, name)]
      else if Request(DeleteTrail, name) in failing then
        [Log(false, Deleting, name), Call(Request(DeleteTrail, name)), Print(Failed, name)]
      else [Log(false, Deleting, name), Call(Request(DeleteTrail, name))]
    else [Log(!live, Skipped, name)]
  }

  function DeleteTrails(names: seq<string>, prefix: Option<string>, live: bool, failing: set<Request>): seq<Effect>
  {
    if names == [] then []
    else TrailEffects(names[0], prefix, live, failing) + DeleteTrails(names[1..], prefix, live, failing)
  }

  /** `delete_cloudtrails(cloudtrail_client, region, prefix, live_action)`,
      given the Name of each entry of describe_trails' "trailList", or None
      when the response has no such key. */
  function DeleteCloudTrails(trailList: Option<seq<string>>, prefix: Option<string>, live: bool, failing: set<Request>): (r: seq<Effect>)
    ensures trailList.None? ==> r == []
    ensures trailList.Some? ==> |r| >= |trailList.value|
  {
    DeleteTrailsLength(trailList.GetOr([]), prefix, live, failing);
    DeleteTrails(trailList.GetOr([]), prefix, live, failing)
  }

  lemma {:induction false} DeleteTrailsLength(names: seq<string>, prefix: Option<string>, live: bool, failing: set<Request>)
    ensures |DeleteTrails(names, prefix, live, failing)| >= |names|
  {
    if names != [] {
      DeleteTrailsLength(names[1..], prefix, live, failing);
    }
  }

  /** The loop handles trails one at a time: the trace of a listing is the
      traces of its parts, in order, and a single trail gives exactly its own
      iteration. Together these fix the whole trace, including how the
      "Skipping" lines interleave with the "Deleting" lines and deletes. */
  lemma {:induction false} TrailsAppend(a: seq<string>, b: seq<string>, prefix: Option<string>, live: bool, failing: set<Request>)
    ensures DeleteTrails(a + b, prefix, live, failing)
         == DeleteTrails(a, prefix, live, failing) + DeleteTrails(b, prefix, live, failing)
  {
    if a == [] {
      assert a + b == b;
    } else {
      assert (a + b)[0] == a[0];
      assert (a + b)[1..] == a[1..] + b;
      TrailsAppend(a[1..], b, prefix, live, failing);
    }
  }

  lemma TrailsOne(name: string, prefix: Option<string>, live: bool, failing: set<Request>)
    ensures DeleteTrails([name], prefix, live, failing) == TrailEffects(name, prefix, live, failing)
  {
    assert [name][1..] == [];
  }

  /** What the projections see of one iteration. */
  lemma TrailEffectsFacts(name: string, prefix: Option<string>, live: bool, failing: set<Request>)
    ensures var step := TrailEffects(name, prefix, live, failing);
      var sel := Selects(prefix, name);
      && Targets(step, DeleteTrail) == (if live && sel then [name] else [])
      && Logged(step, Deleting) == (if sel then [name] else [])
      && Logged(step, Skipped) == (if sel then [] else [name])
      && Printed(step, Failed) == (if live && sel && Request(DeleteTrail, name) in failing then [name] else [])
  {
    var d := Log(!live, Deleting, name);
    var c := Call(Request(DeleteTrail, name));
    if !Selects(prefix, name) {
      Project1(Log(!live, Skipped, name), DeleteTrail, Deleting);
      Project1(Log(!live, Skipped, name), DeleteTrail, Skipped);
      Project1(Log(!live, Skipped, name), DeleteTrail, Failed);
    } else if !live {
      Project1(d, DeleteTrail, Deleting);
      Project1(d, DeleteTrail, Skipped);
      Project1(d, DeleteTrail, Failed);
    } else if Request(DeleteTrail, name) in failing {
      var p := Print(Failed, name);
      Targets3(d, c, p, DeleteTrail);
      Logged3(d, c, p, Deleting);
      Logged3(d, c, p, Skipped);
      Printed3(d, c, p, Failed);
    } else {
      Project2(d, c, DeleteTrail, Deleting);
      Project2(d, c, DeleteTrail, Skipped);
      Project2(d, c, DeleteTrail, Failed);
    }
  }

  /** Each line of one iteration comes from the logger of the mode, and in
      live mode the delete follows its "Deleting" line. */
  lemma TrailEffectsShape(name: string, prefix: Option<string>, live: bool, failing: set<Request>)
    ensures var step := TrailEffects(name, prefix, live, failing);
      && (live ==> Announced(step, DeleteTrail, false, Deleting))
      && LogsIn(step, !live)
  {
  }

  /** In both modes every selected trail gets one "Deleting" line and every
      other trail one "Skipping (Prefix does not match)" line, in listing
      order, all written by the logger of the mode. */
  lemma {:induction false} EveryTrailLogged(names: seq<string>, prefix: Option<string>, live: bool, failing: set<Request>)
    ensures var r := DeleteTrails(names, prefix, live, failing);
      && Logged(r, Deleting) == SelectedNames(names, prefix)
      && Logged(r, Skipped) == UnselectedNames(names, prefix)
      && LogsIn(r, !live)
  {
    if names != [] {
      EveryTrailLogged(names[1..], prefix, live, failing);
      var step := TrailEffects(names[0], prefix, live, failing);
      var rest := DeleteTrails(names[1..], prefix, live, failing);
      TrailEffectsFacts(names[0], prefix, live, failing);
      TrailEffectsShape(names[0], prefix, live, failing);
      LoggedAppend(step, rest, Deleting);
      LoggedAppend(step, rest, Skipped);
    }
  }

  /** A dry run issues no delete and prints no error. */
  lemma {:induction false} DryRunDeletesNothing(names: seq<string>, prefix: Option<string>, failing: set<Request>)
    ensures var r := DeleteTrails(names, prefix, false, failing);
      Targets(r, DeleteTrail) == [] && Printed(r, Failed) == []
  {
    if names != [] {
      DryRunDeletesNothing(names[1..], prefix, failing);
      var step := TrailEffects(names[0], prefix, false, failing);
      var rest := DeleteTrails(names[1..], prefix, false, failing);
      TrailEffectsFacts(names[0], prefix, false, failing);
      TargetsAppend(step, rest, DeleteTrail);
      PrintedAppend(step, rest, Failed);
    }
  }

  /** Live mode deletes every selected trail once, in listing order, each right
      after its "Deleting" line; a failing delete is printed and the loop goes
      on, so failures change only which errors are printed. */
  lemma {:induction false} LiveDeletesSelected(names: seq<string>, prefix: Option<string>, failing: set<Request>)
    ensures var r := DeleteTrails(names, prefix, true, failing);
      && Targets(r, DeleteTrail) == SelectedNames(names, prefix)
      && Printed(r, Failed) == FailingOf(DeleteTrail, SelectedNames(names, prefix), failing)
      && Announced(r, DeleteTrail, false, Deleting)
  {
    if names != [] {
      var n := names[0];
      LiveDeletesSelected(names[1..], prefix, failing);
      var step := TrailEffects(n, prefix, true, failing);
      var rest := DeleteTrails(names[1..], prefix, true, failing);
      TrailEffectsFacts(n, prefix, true, failing);
      TrailEffectsShape(n, prefix, true, failing);
      TargetsAppend(step, rest, DeleteTrail);
      PrintedAppend(step, rest, Failed);
      AnnouncedAppend(step, rest, DeleteTrail, false, Deleting);
      var m := SelectedNames(names[1..], prefix);
      if Selects(prefix, n) {
        assert SelectedNames(names, prefix) == [n] + m;
        assert ([n] + m)[0] == n && ([n] + m)[1..] == m;
        assert FailingOf(DeleteTrail, [n] + m, failing)
          == (if Request(DeleteTrail, n) in failing then [n] else []) + FailingOf(DeleteTrail, m, failing);
      } else {
        assert SelectedNames(names, prefix) == m;
      }
    }
  }

  /** A missing or empty prefix selects every trail. */
  lemma {:induction false} MissingPrefixSelectsAll(names: seq<string>, prefix: Option<string>)
    requires prefix == None || prefix == Some("")
    ensures SelectedNames(names, prefix) == names
    ensures UnselectedNames(names, prefix) == []
  {
    if names != [] {
      MissingPrefixSelectsAll(names[1..], prefix);
    }
  }
}
