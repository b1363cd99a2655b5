/** delete_aws_keypairs: delete the EC2 key pairs whose name starts with a prefix. */
module KeyPairs {
  import opened Effects

  /** Key names that start with `prefix`, in listing order. */
  function MatchingNames(names: seq<string>, prefix: string): seq<string>
  {
    if names == [] then []
    else (if prefix <= names[0] then [names[0]] else []) + MatchingNames(names[1..], prefix)
  }

  /** What one loop iteration emits, assuming its call does not raise. */
  function KeyPairEffects(name: string, prefix: string, live: bool): seq<Effect>
  {
    if prefix <= name then
      [Log(!live, Deleting, name)] + (if live then [Call(Request(DeleteKeyPair, name))] else [])
    else []
  }

  /** `delete_key_pairs(ec2_client, region, prefix, live_action)` over the
      KeyName of each entry describe_key_pairs lists. The delete call is not
      guarded, so its failure ends the function. */
  function DeleteKeyPairs(names: seq<string>, prefix: string, live: bool, failing: set<Request>): (r: Run)
    ensures r.raised ==> live
  {
    if names == [] then Run([], false)
    else
      var step := KeyPairEffects(names[0], prefix, live);
      if live && prefix <= names[0] && Request(DeleteKeyPair, names[0]) in failing then
        Run(step, true)
      else
        var rest := DeleteKeyPairs(names[1..], prefix, live, failing);
        Run(step + rest.effects, rest.raised)
  }

  /** A dry run writes exactly one tagged "Deleting" line per matching key
      pair, in listing order, and nothing else. */
  lemma {:induction false} DryRunOnlyLogs(names: seq<string>, prefix: string, failing: set<Request>)
    ensures DeleteKeyPairs(names, prefix, false, failing)
      == Run(LogEach(true, Deleting, MatchingNames(names, prefix)), false)
  {
    if names != [] {
      var n := names[0];
      DryRunOnlyLogs(names[1..], prefix, failing);
      var rest := DeleteKeyPairs(names[1..], prefix, false, failing);
      var m := MatchingNames(names[1..], prefix);
      assert DeleteKeyPairs(names, prefix, false, failing)
        == Run(KeyPairEffects(n, prefix, false) + rest.effects, rest.raised);
      if prefix <= n {
        assert KeyPairEffects(n, prefix, false) == [Log(true, Deleting, n)];
        assert MatchingNames(names, prefix) == [n] + m;
        assert ([n] + m)[0] == n && ([n] + m)[1..] == m;
        assert LogEach(true, Deleting, [n] + m) == [Log(true, Deleting, n)] + LogEach(true, Deleting, m);
      } else {
        assert KeyPairEffects(n, prefix, false) == [];
        assert MatchingNames(names, prefix) == m;
      }
    }
  }

  /** In live mode the trace is, for each matching key pair in listing order
      up to the first delete that raises, its "Deleting" line followed by its
      delete call; the function raises exactly when one of those deletes fails. */
  lemma {:induction false} LiveTrace(names: seq<string>, prefix: string, failing: set<Request>)
    ensures var r := DeleteKeyPairs(names, prefix, true, failing);
      var matching := MatchingNames(names, prefix);
      && r.effects == AnnounceEach(false, Deleting, DeleteKeyPair, UpToFirstFailure(DeleteKeyPair, matching, failing))
      && (r.raised <==> AnyFails(DeleteKeyPair, matching, failing))
  {
    if names != [] {
      var n := names[0];
      var r := DeleteKeyPairs(names, prefix, true, failing);
      var restMatching := MatchingNames(names[1..], prefix);
      var step := KeyPairEffects(n, prefix, true);
      if prefix <= n {
        var pair := [Log(false, Deleting, n), Call(Request(DeleteKeyPair, n))];
        assert step == pair;
        assert MatchingNames(names, prefix) == [n] + restMatching;
        UpToFirstFailureCons(DeleteKeyPair, n, restMatching, failing);
        AnyFailsAppend(DeleteKeyPair, [n], restMatching, failing);
        assert AnyFails(DeleteKeyPair, [n], failing) <==> Request(DeleteKeyPair, n) in failing by {
          assert n in [n];
        }
        if Request(DeleteKeyPair, n) in failing {
          assert r == Run(pair, true);
          assert [n][1..] == [];
          assert AnnounceEach(false, Deleting, DeleteKeyPair, [n]) == pair + [];
        } else {
          LiveTrace(names[1..], prefix, failing);
          var rest := DeleteKeyPairs(names[1..], prefix, true, failing);
          assert r == Run(pair + rest.effects, rest.raised);
          var upTo := UpToFirstFailure(DeleteKeyPair, restMatching, failing);
          assert ([n] + upTo)[0] == n && ([n] + upTo)[1..] == upTo;
          assert AnnounceEach(false, Deleting, DeleteKeyPair, [n] + upTo)
            == pair + AnnounceEach(false, Deleting, DeleteKeyPair, upTo);
        }
      } else {
        assert step == [];
        assert MatchingNames(names, prefix) == restMatching;
        LiveTrace(names[1..], prefix, failing);
        var rest := DeleteKeyPairs(names[1..], prefix, true, failing);
        assert r == Run([] + rest.effects, rest.raised);
        assert [] + rest.effects == rest.effects;
      }
    }
  }

  /** A delete that raises ends the trace: its call is the last effect, and
      no later key pair is logged or deleted. */
  lemma AbortEndsTrace(names: seq<string>, prefix: string, failing: set<Request>)
    ensures var r := DeleteKeyPairs(names, prefix, true, failing);
      r.raised ==>
        && r.effects != []
        && r.effects[|r.effects| - 1].Call?
        && r.effects[|r.effects| - 1].req in failing
        && r.effects[|r.effects| - 1].req.api == DeleteKeyPair
  {
    var r := DeleteKeyPairs(names, prefix, true, failing);
    var matching := MatchingNames(names, prefix);
    LiveTrace(names, prefix, failing);
    if r.raised {
      var upTo := UpToFirstFailure(DeleteKeyPair, matching, failing);
      assert r.effects == AnnounceEach(false, Deleting, DeleteKeyPair, upTo);
      assert upTo != [];
      AnnounceEachLast(false, Deleting, DeleteKeyPair, upTo);
    }
  }

  /** The last effect of a non-empty AnnounceEach is the call on the last id. */
  lemma {:induction false} AnnounceEachLast(dry: bool, note: Note, api: Api, ids: seq<string>)
    requires ids != []
    ensures var r := AnnounceEach(dry, note, api, ids);
      r[|r| - 1] == Call(Request(api, ids[|ids| - 1]))
  {
    if |ids| > 1 {
      var rest := AnnounceEach(dry, note, api, ids[1..]);
      AnnounceEachLast(dry, note, api, ids[1..]);
      var r := [Log(dry, note, ids[0]), Call(Request(api, ids[0]))] + rest;
      assert AnnounceEach(dry, note, api, ids) == r;
      assert r[|r| - 1] == rest[|rest| - 1];
      assert ids[1..][|ids| - 2] == ids[|ids| - 1];
    }
  }

  /** A key pair whose name does not start with the prefix is never logged or
      deleted, in either mode. */
  lemma {:induction false} NonMatchingUntouched(names: seq<string>, prefix: string, live: bool, failing: set<Request>)
    ensures forall e :: e in DeleteKeyPairs(names, prefix, live, failing).effects ==>
      (e.Log? ==> prefix <= e.subject) && (e.Call? ==> prefix <= e.req.target)
  {
    if names != [] {
      NonMatchingUntouched(names[1..], prefix, live, failing);
    }
  }

  /** The empty prefix matches every key name. */
  lemma {:induction false} EmptyPrefixMatchesAll(names: seq<string>)
    ensures MatchingNames(names, "") == names
  {
    if names != [] {
      EmptyPrefixMatchesAll(names[1..]);
    }
  }
}
