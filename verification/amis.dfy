/** delete_amis: deregister the AMIs whose name starts with a prefix. */
module Amis {
  import opened Effects

  /** An entry of the `Images` list describe_images returns, reduced to the
      fields the script reads. */
  datatype Ami = Ami(imageId: string, name: string)

  /** ImageIds of the AMIs whose Name starts with `prefix`, in listing order. */
  function MatchingIds(amis: seq<Ami>, prefix: string): seq<string>
  {
    if amis == [] then []
    else (if prefix <= amis[0].name then [amis[0].imageId] else []) + MatchingIds(amis[1..], prefix)
  }

  /** ImageIds of the AMIs whose Name does not start with `prefix`, in listing order. */
  function OtherIds(amis: seq<Ami>, prefix: string): seq<string>
  {
    if amis == [] then []
    else (if prefix <= amis[0].name then [] else [amis[0].imageId]) + OtherIds(amis[1..], prefix)
  }

  function ImageIds(amis: seq<Ami>): seq<string>
  {
    if amis == [] then [] else [amis[0].imageId] + ImageIds(amis[1..])
  }

  /** What one loop iteration emits, assuming its call does not raise. */
  function AmiEffects(ami: Ami, prefix: string, live: bool): seq<Effect>
  {
    if prefix <= ami.name then
      if live then [Log(false, Deleting, ami.imageId), Call(Request(DeregisterImage, ami.imageId))]
      else [Log(true, Deleting, ami.imageId)]
    else if live then [Log(false, Skipped, ami.imageId)]
    else []
  }

  /** What the projections see of one iteration. */
  lemma AmiEffectsFacts(ami: Ami, prefix: string, live: bool)
    ensures var step := AmiEffects(ami, prefix, live);
      && Targets(step, DeregisterImage) == (if live && prefix <= ami.name then [ami.imageId] else [])
      && Logged(step, Deleting) == (if prefix <= ami.name then [ami.imageId] else [])
      && Logged(step, Skipped) == (if live && !(prefix <= ami.name) then [ami.imageId] else [])
      && (live ==> Announced(step, DeregisterImage, false, Deleting))
      && LogsIn(step, !live)
  {
    var step := AmiEffects(ami, prefix, live);
    if |step| == 2 {
      Project2(step[0], step[1], DeregisterImage, Deleting);
      Project2(step[0], step[1], DeregisterImage, Skipped);
    } else if |step| == 1 {
      Project1(step[0], DeregisterImage, Deleting);
      Project1(step[0], DeregisterImage, Skipped);
    }
  }

  /** `delete_amis(ec2_client, amis, prefix, live_action)`. The deregister call
      is not guarded, so its failure ends the function. */
  function DeleteAmis(amis: seq<Ami>, prefix: string, live: bool, failing: set<Request>): (r: Run)
    ensures r.raised ==> live
  {
    if amis == [] then Run([], false)
    else
      var step := AmiEffects(amis[0], prefix, live);
      if live && prefix <= amis[0].name && Request(DeregisterImage, amis[0].imageId) in failing then
        Run(step, true)
      else
        var rest := DeleteAmis(amis[1..], prefix, live, failing);
        Run(step + rest.effects, rest.raised)
  }

  /** The loop handles AMIs one at a time: when the first part of a listing
      runs without raising, the trace of the whole is the traces of the
      parts in order, and a single AMI gives exactly its own iteration,
      raising when its deregister fails. Together these fix the whole trace,
      including how "Skipped" lines interleave with the deregisters. */
  lemma {:induction false} AmisAppend(a: seq<Ami>, b: seq<Ami>, prefix: string, live: bool, failing: set<Request>)
    requires !DeleteAmis(a, prefix, live, failing).raised
    ensures var rb := DeleteAmis(b, prefix, live, failing);
      DeleteAmis(a + b, prefix, live, failing) == Run(DeleteAmis(a, prefix, live, failing).effects + rb.effects, rb.raised)
  {
    if a == [] {
      assert a + b == b;
    } else {
      var x := a[0];
      var t := a[1..];
      assert a == [x] + t;
      assert a + b == [x] + (t + b);
      AmisHeadRaises(x, t, prefix, live, failing);
      AmisCons(x, t, prefix, live, failing);
      AmisCons(x, t + b, prefix, live, failing);
      AmisAppend(t, b, prefix, live, failing);
      RunConcat(AmiEffects(x, prefix, live), DeleteAmis(t, prefix, live, failing), DeleteAmis(b, prefix, live, failing),
                DeleteAmis(t + b, prefix, live, failing));
    }
  }

  /** Bookkeeping for AmisAppend: prefixing one iteration's effects commutes
      with joining two runs. */
  lemma RunConcat(step: seq<Effect>, ra: Run, rb: Run, rab: Run)
    requires rab == Run(ra.effects + rb.effects, rb.raised)
    ensures Run(step + rab.effects, rab.raised) == Run(Run(step + ra.effects, ra.raised).effects + rb.effects, rb.raised)
  {
    assert step + (ra.effects + rb.effects) == (step + ra.effects) + rb.effects;
  }

  /** An AMI whose deregister fails ends the run, raising. */
  lemma AmisHeadRaises(x: Ami, rest: seq<Ami>, prefix: string, live: bool, failing: set<Request>)
    ensures live && prefix <= x.name && Request(DeregisterImage, x.imageId) in failing
        ==> DeleteAmis([x] + rest, prefix, live, failing) == Run(AmiEffects(x, prefix, live), true)
  {
    assert ([x] + rest)[0] == x;
  }

  /** An AMI whose iteration does not raise is followed by the rest of the run. */
  lemma AmisCons(x: Ami, rest: seq<Ami>, prefix: string, live: bool, failing: set<Request>)
    requires !(live && prefix <= x.name && Request(DeregisterImage, x.imageId) in failing)
    ensures var r := DeleteAmis(rest, prefix, live, failing);
      DeleteAmis([x] + rest, prefix, live, failing) == Run(AmiEffects(x, prefix, live) + r.effects, r.raised)
  {
    assert ([x] + rest)[0] == x;
    assert ([x] + rest)[1..] == rest;
  }

  lemma AmisOne(x: Ami, prefix: string, live: bool, failing: set<Request>)
    ensures DeleteAmis([x], prefix, live, failing)
         == Run(AmiEffects(x, prefix, live), live && prefix <= x.name && Request(DeregisterImage, x.imageId) in failing)
  {
    assert [x][1..] == [];
    assert AmiEffects(x, prefix, live) + [] == AmiEffects(x, prefix, live);
  }

  /** A dry run only announces: one tagged "Deleting" line per matching AMI,
      in order, no deregister, and nothing at all for the other AMIs. */
  lemma {:induction false} DryRunOnlyAnnounces(amis: seq<Ami>, prefix: string, failing: set<Request>)
    ensures var r := DeleteAmis(amis, prefix, false, failing);
      && !r.raised
      && Targets(r.effects, DeregisterImage) == []
      && Logged(r.effects, Deleting) == MatchingIds(amis, prefix)
      && |r.effects| == |MatchingIds(amis, prefix)|
      && LogsIn(r.effects, true)
  {
    if amis != [] {
      DryRunOnlyAnnounces(amis[1..], prefix, failing);
      var step := AmiEffects(amis[0], prefix, false);
      var rest := DeleteAmis(amis[1..], prefix, false, failing);
      AmiEffectsFacts(amis[0], prefix, false);
      TargetsAppend(step, rest.effects, DeregisterImage);
      LoggedAppend(step, rest.effects, Deleting);
    }
  }

  /** Live mode deregisters the matching AMIs in listing order and stops after
      the first deregister that raises; it raises exactly when one of them fails. */
  lemma {:induction false} LiveDeregistersMatching(amis: seq<Ami>, prefix: string, failing: set<Request>)
    ensures var r := DeleteAmis(amis, prefix, true, failing);
      var matching := MatchingIds(amis, prefix);
      && Targets(r.effects, DeregisterImage) == UpToFirstFailure(DeregisterImage, matching, failing)
      && (r.raised <==> AnyFails(DeregisterImage, matching, failing))
  {
    if amis != [] {
      var a := amis[0];
      var r := DeleteAmis(amis, prefix, true, failing);
      var step := AmiEffects(a, prefix, true);
      var restMatching := MatchingIds(amis[1..], prefix);
      AmiEffectsFacts(a, prefix, true);
      if prefix <= a.name {
        var matching := [a.imageId] + restMatching;
        assert MatchingIds(amis, prefix) == matching;
        UpToFirstFailureCons(DeregisterImage, a.imageId, restMatching, failing);
        AnyFailsAppend(DeregisterImage, [a.imageId], restMatching, failing);
        assert AnyFails(DeregisterImage, [a.imageId], failing) <==> Request(DeregisterImage, a.imageId) in failing by {
          assert a.imageId in [a.imageId];
        }
        if Request(DeregisterImage, a.imageId) !in failing {
          LiveDeregistersMatching(amis[1..], prefix, failing);
          var rest := DeleteAmis(amis[1..], prefix, true, failing);
          assert r == Run(step + rest.effects, rest.raised);
          TargetsAppend(step, rest.effects, DeregisterImage);
        } else {
          assert r == Run(step, true);
        }
      } else {
        assert MatchingIds(amis, prefix) == restMatching;
        LiveDeregistersMatching(amis[1..], prefix, failing);
        var rest := DeleteAmis(amis[1..], prefix, true, failing);
        assert r == Run(step + rest.effects, rest.raised);
        TargetsAppend(step, rest.effects, DeregisterImage);
      }
    }
  }

  /** A live run that raises stops at the first matching AMI whose deregister
      fails: everything before it ran without raising, that AMI got its
      "Deleting" line and its deregister, and nothing follows the failing call. */
  lemma {:induction false} LiveStopsAtFailure(amis: seq<Ami>, prefix: string, failing: set<Request>)
    ensures var r := DeleteAmis(amis, prefix, true, failing);
      r.raised ==> exists k :: 0 <= k < |amis| && FailsAt(amis, prefix, failing, k, r)
  {
    var r := DeleteAmis(amis, prefix, true, failing);
    if amis != [] && r.raised {
      var a := amis[0];
      if prefix <= a.name && Request(DeregisterImage, a.imageId) in failing {
        assert amis[..0] == [];
        assert FailsAt(amis, prefix, failing, 0, r);
      } else {
        var step := AmiEffects(a, prefix, true);
        var rest := DeleteAmis(amis[1..], prefix, true, failing);
        assert r == Run(step + rest.effects, rest.raised);
        LiveStopsAtFailure(amis[1..], prefix, failing);
        var j :| 0 <= j < |amis[1..]| && FailsAt(amis[1..], prefix, failing, j, rest);
        var k := j + 1;
        var before := DeleteAmis(amis[1..][..j], prefix, true, failing);
        var last := [Log(false, Deleting, amis[k].imageId), Call(Request(DeregisterImage, amis[k].imageId))];
        assert amis[1..][j] == amis[k];
        assert amis[..k][0] == a && amis[..k][1..] == amis[1..][..j];
        var upTo := DeleteAmis(amis[..k], prefix, true, failing);
        assert upTo == Run(step + before.effects, before.raised);
        assert r.effects == step + (before.effects + last);
        assert r.effects == (step + before.effects) + last;
        assert FailsAt(amis, prefix, failing, k, r);
      }
    }
  }

  /** The run `r` ends at AMI `k`: it matches, its deregister fails, the AMIs
      before it ran without raising, and `r` is their trace followed by the
      line and the call for AMI `k`. */
  predicate FailsAt(amis: seq<Ami>, prefix: string, failing: set<Request>, k: int, r: Run)
    requires 0 <= k < |amis|
  {
    var before := DeleteAmis(amis[..k], prefix, true, failing);
    && prefix <= amis[k].name
    && Request(DeregisterImage, amis[k].imageId) in failing
    && !before.raised
    && r.effects == before.effects + [Log(false, Deleting, amis[k].imageId), Call(Request(DeregisterImage, amis[k].imageId))]
  }

  /** In live mode every deregister comes right after an untagged "Deleting"
      line for the same AMI, and only deregistered AMIs get that line. */
  lemma {:induction false} LiveAnnouncesEachDeregister(amis: seq<Ami>, prefix: string, failing: set<Request>)
    ensures var r := DeleteAmis(amis, prefix, true, failing);
      && Logged(r.effects, Deleting) == Targets(r.effects, DeregisterImage)
      && Announced(r.effects, DeregisterImage, false, Deleting)
      && LogsIn(r.effects, false)
  {
    if amis != [] {
      var a := amis[0];
      var step := AmiEffects(a, prefix, true);
      AmiEffectsFacts(a, prefix, true);
      if !(prefix <= a.name && Request(DeregisterImage, a.imageId) in failing) {
        LiveAnnouncesEachDeregister(amis[1..], prefix, failing);
        var rest := DeleteAmis(amis[1..], prefix, true, failing);
        TargetsAppend(step, rest.effects, DeregisterImage);
        LoggedAppend(step, rest.effects, Deleting);
        AnnouncedAppend(step, rest.effects, DeregisterImage, false, Deleting);
      }
    }
  }

  /** In live mode with no failing deregister, every non-matching AMI gets one
      "Skipped" line, in order, and is never deregistered. */
  lemma {:induction false} LiveSkipsOthers(amis: seq<Ami>, prefix: string, failing: set<Request>)
    requires !AnyFails(DeregisterImage, MatchingIds(amis, prefix), failing)
    ensures var r := DeleteAmis(amis, prefix, true, failing);
      && !r.raised
      && Logged(r.effects, Skipped) == OtherIds(amis, prefix)
      && Targets(r.effects, DeregisterImage) == MatchingIds(amis, prefix)
  {
    if amis != [] {
      var a := amis[0];
      var head := if prefix <= a.name then [a.imageId] else [];
      AnyFailsAppend(DeregisterImage, head, MatchingIds(amis[1..], prefix), failing);
      if prefix <= a.name {
        assert a.imageId in head;
      }
      LiveSkipsOthers(amis[1..], prefix, failing);
      var step := AmiEffects(a, prefix, true);
      var rest := DeleteAmis(amis[1..], prefix, true, failing);
      AmiEffectsFacts(a, prefix, true);
      LoggedAppend(step, rest.effects, Skipped);
      TargetsAppend(step, rest.effects, DeregisterImage);
    }
  }

  /** The empty prefix matches every AMI name. */
  lemma {:induction false} EmptyPrefixMatchesAll(amis: seq<Ami>)
    ensures MatchingIds(amis, "") == ImageIds(amis)
    ensures OtherIds(amis, "") == []
  {
    if amis != [] {
      EmptyPrefixMatchesAll(amis[1..]);
    }
  }
}
