/** import_role_permissions: recreate a role from the three exported files:
    create the role, attach each listed policy ARN, then put each inline
    policy. No call is guarded, so the first failing call ends the import. */
module RoleImport {
  import opened Wrappers
  import opened PolicyText
  import opened RoleExport

  /** The IAM calls the import makes, with the arguments that matter. */
  datatype IamCall =
    | CreateRole(roleName: string, trustPolicy: string)
    | AttachRolePolicy(roleName: string, policyArn: string)
    | PutRolePolicy(roleName: string, policyName: string, document: string)

  /** The calls issued, and whether the last one raised. The final
      "imported successfully" line is printed exactly when nothing raised. */
  datatype ImportRun = ImportRun(calls: seq<IamCall>, raised: bool)

  /** One attach call per ARN, in order. */
  function Attaches(roleName: string, arns: seq<string>): (r: seq<IamCall>)
    ensures |r| == |arns|
    ensures forall i :: 0 <= i < |arns| ==> r[i] == AttachRolePolicy(roleName, arns[i])
  {
    if arns == [] then [] else [AttachRolePolicy(roleName, arns[0])] + Attaches(roleName, arns[1..])
  }

  /** One put call per dict entry, in the dict's order. */
  function Puts(roleName: string, d: seq<InlinePolicy>): (r: seq<IamCall>)
    ensures |r| == |d|
    ensures forall i :: 0 <= i < |d| ==> r[i] == PutRolePolicy(roleName, d[i].name, d[i].document)
  {
    if d == [] then [] else [PutRolePolicy(roleName, d[0].name, d[0].document)] + Puts(roleName, d[1..])
  }

  /** Some call of `calls` fails. */
  predicate AnyFailing(calls: seq<IamCall>, failing: set<IamCall>)
  {
    exists c :: c in calls && c in failing
  }

  lemma AnyFailingTail(calls: seq<IamCall>, failing: set<IamCall>)
    requires calls != [] && calls[0] !in failing
    ensures AnyFailing(calls, failing) <==> AnyFailing(calls[1..], failing)
  {
    if AnyFailing(calls, failing) {
      var c :| c in calls && c in failing;
      assert c in calls[1..];
    }
  }

  /** Issues `calls` in order; the first call in `failing` raises and ends the run. */
  function Issue(calls: seq<IamCall>, failing: set<IamCall>): (r: ImportRun)
    ensures r.calls <= calls
    ensures r.raised <==> AnyFailing(calls, failing)
    ensures !r.raised ==> r.calls == calls
    ensures r.raised ==>
      && r.calls != [] && r.calls[|r.calls| - 1] in failing
      && forall k :: 0 <= k < |r.calls| - 1 ==> r.calls[k] !in failing
  {
    if calls == [] then ImportRun([], false)
    else if calls[0] in failing then ImportRun([calls[0]], true)
    else
      var rest := Issue(calls[1..], failing);
      AnyFailingTail(calls, failing);
      IssueCons(calls[0], rest.calls, calls[1..], failing);
      assert calls == [calls[0]] + calls[1..];
      ImportRun([calls[0]] + rest.calls, rest.raised)
  }

  /** Prepending a call that succeeds keeps the issued calls a prefix, with
      no failure before the last. */
  lemma IssueCons(c: IamCall, issued: seq<IamCall>, calls: seq<IamCall>, failing: set<IamCall>)
    requires c !in failing && issued <= calls
    requires issued != [] ==> forall k :: 0 <= k < |issued| - 1 ==> issued[k] !in failing
    ensures [c] + issued <= [c] + calls
    ensures forall k :: 0 <= k < |issued| ==> ([c] + issued)[k] !in failing
    ensures issued != [] ==> ([c] + issued)[|issued|] == issued[|issued| - 1]
  {
    var x := [c] + issued;
    assert forall k :: 1 <= k < |x| ==> x[k] == issued[k - 1];
  }

  /** Every call the import would make if none raised: the role, then the
      ARNs read from attached_policies.txt, then the inline dict. The create
      comes first, the calls are in phase order, each line of the ARN file
      and each dict entry gets one call, and every call is for `roleName`. */
  function Plan(roleName: string, files: RoleFiles): (p: seq<IamCall>)
    ensures |p| == 1 + |SplitLines(files.attachedPolicies)| + |InlineDict(files.inlinePolicies)|
    ensures p[0] == CreateRole(roleName, files.trustPolicy)
    ensures Phased(p)
    ensures forall c :: c in p ==> c.roleName == roleName
  {
    var create := [CreateRole(roleName, files.trustPolicy)];
    var attaches := Attaches(roleName, ParseArns(files.attachedPolicies));
    var puts := Puts(roleName, InlineDict(files.inlinePolicies));
    AttachesPhase(roleName, ParseArns(files.attachedPolicies));
    PutsPhase(roleName, InlineDict(files.inlinePolicies));
    assert AllInPhase(create, 0, roleName);
    PhasedAppend(create, attaches, 1, roleName);
    assert forall c :: c in create + attaches ==> Phase(c) <= 2 && c.roleName == roleName;
    PhasedAppend(create + attaches, puts, 2, roleName);
    create + attaches + puts
  }

  /** `import_role_permissions(role_name)` given the three files' contents. */
  function ImportRolePermissions(roleName: string, files: RoleFiles, failing: set<IamCall>): (r: ImportRun)
    ensures r.calls <= Plan(roleName, files)
    ensures r.raised <==> AnyFailing(Plan(roleName, files), failing)
    ensures !r.raised ==> r.calls == Plan(roleName, files)
  {
    Issue(Plan(roleName, files), failing)
  }

  // ---------------------------------------------------------------------------
  // Call order

  /** Create comes before attach, attach before put. */
  function Phase(c: IamCall): nat
  {
    match c
    case CreateRole(_, _) => 0
    case AttachRolePolicy(_, _) => 1
    case PutRolePolicy(_, _, _) => 2
  }

  predicate Phased(calls: seq<IamCall>)
  {
    forall i, j :: 0 <= i < j < |calls| ==> Phase(calls[i]) <= Phase(calls[j])
  }

  /** Every call of `calls` is in phase `k` and for role `roleName`. */
  predicate AllInPhase(calls: seq<IamCall>, k: nat, roleName: string)
  {
    forall c :: c in calls ==> Phase(c) == k && c.roleName == roleName
  }

  lemma AttachesPhase(roleName: string, arns: seq<string>)
    ensures AllInPhase(Attaches(roleName, arns), 1, roleName)
  {
    var a := Attaches(roleName, arns);
    forall c | c in a
      ensures Phase(c) == 1 && c.roleName == roleName
    {
      var i :| 0 <= i < |a| && a[i] == c;
    }
  }

  lemma PutsPhase(roleName: string, d: seq<InlinePolicy>)
    ensures AllInPhase(Puts(roleName, d), 2, roleName)
  {
    var p := Puts(roleName, d);
    forall c | c in p
      ensures Phase(c) == 2 && c.roleName == roleName
    {
      var i :| 0 <= i < |p| && p[i] == c;
    }
  }

  /** Appending calls of one phase no earlier than any call before them keeps
      the phase order. */
  lemma PhasedAppend(a: seq<IamCall>, b: seq<IamCall>, k: nat, roleName: string)
    requires Phased(a)
    requires forall c :: c in a ==> Phase(c) <= k
    requires AllInPhase(b, k, roleName)
    ensures Phased(a + b)
  {
    var ab := a + b;
    forall i, j | 0 <= i < j < |ab|
      ensures Phase(ab[i]) <= Phase(ab[j])
    {
      if j >= |a| {
        assert ab[j] in b;
        if i < |a| {
          assert ab[i] in a;
        } else {
          assert ab[i] in b;
        }
      }
    }
  }

  /** Whatever fails, the import makes its calls in phase order and starts
      with the create; if the create fails nothing else is called. */
  lemma ImportOrder(roleName: string, files: RoleFiles, failing: set<IamCall>)
    ensures var r := ImportRolePermissions(roleName, files, failing);
      && Phased(r.calls)
      && r.calls != []
      && r.calls[0] == CreateRole(roleName, files.trustPolicy)
      && (CreateRole(roleName, files.trustPolicy) in failing ==>
            r == ImportRun([CreateRole(roleName, files.trustPolicy)], true))
  {
    var p := Plan(roleName, files);
    var r := Issue(p, failing);
    PhasedPrefix(r.calls, p);
    IssueStartsWith(p, failing);
  }

  /** A prefix of calls in phase order is in phase order. */
  lemma PhasedPrefix(a: seq<IamCall>, b: seq<IamCall>)
    requires a <= b && Phased(b)
    ensures Phased(a)
  {
    assert forall i :: 0 <= i < |a| ==> a[i] == b[i];
  }

  /** A non-empty list of calls always issues its first call, and only that
      one when it fails. */
  lemma IssueStartsWith(calls: seq<IamCall>, failing: set<IamCall>)
    requires calls != []
    ensures var r := Issue(calls, failing);
      && r.calls != [] && r.calls[0] == calls[0]
      && (calls[0] in failing ==> r == ImportRun([calls[0]], true))
  {
  }

  // ---------------------------------------------------------------------------
  // What a complete import attaches and puts

  /** The ARNs attached by `calls`, in order. */
  function AttachedBy(calls: seq<IamCall>): seq<string>
  {
    if calls == [] then []
    else (if calls[0].AttachRolePolicy? then [calls[0].policyArn] else []) + AttachedBy(calls[1..])
  }

  /** The inline policies put by `calls`, in order. */
  function PutBy(calls: seq<IamCall>): seq<InlinePolicy>
  {
    if calls == [] then []
    else
      var head := if calls[0].PutRolePolicy? then [InlinePolicy(calls[0].policyName, calls[0].document)] else [];
      head + PutBy(calls[1..])
  }

  lemma {:induction false} ProjectionsAppend(a: seq<IamCall>, b: seq<IamCall>)
    ensures AttachedBy(a + b) == AttachedBy(a) + AttachedBy(b)
    ensures PutBy(a + b) == PutBy(a) + PutBy(b)
  {
    if a != [] {
      var ab := a + b;
      assert ab[0] == a[0];
      assert ab[1..] == a[1..] + b;
      ProjectionsAppend(a[1..], b);
      var x := if a[0].AttachRolePolicy? then [a[0].policyArn] else [];
      assert AttachedBy(ab) == x + (AttachedBy(a[1..]) + AttachedBy(b));
      assert x + (AttachedBy(a[1..]) + AttachedBy(b)) == (x + AttachedBy(a[1..])) + AttachedBy(b);
      var y := if a[0].PutRolePolicy? then [InlinePolicy(a[0].policyName, a[0].document)] else [];
      assert PutBy(ab) == y + (PutBy(a[1..]) + PutBy(b));
      assert y + (PutBy(a[1..]) + PutBy(b)) == (y + PutBy(a[1..])) + PutBy(b);
    } else {
      assert a + b == b;
    }
  }

  lemma {:induction false} AttachesProject(roleName: string, arns: seq<string>)
    ensures AttachedBy(Attaches(roleName, arns)) == arns
    ensures PutBy(Attaches(roleName, arns)) == []
  {
    if arns != [] {
      AttachesProject(roleName, arns[1..]);
      assert Attaches(roleName, arns)[1..] == Attaches(roleName, arns[1..]);
    }
  }

  lemma {:induction false} PutsProject(roleName: string, d: seq<InlinePolicy>)
    ensures AttachedBy(Puts(roleName, d)) == []
    ensures PutBy(Puts(roleName, d)) == d
  {
    if d != [] {
      PutsProject(roleName, d[1..]);
      assert Puts(roleName, d)[1..] == Puts(roleName, d[1..]);
      assert d == [d[0]] + d[1..];
    }
  }

  /** An import that raises nothing attaches every line of
      attached_policies.txt, stripped, in file order (blank lines included),
      and puts every entry of the inline dict once, in the dict's order. */
  lemma CompleteImport(roleName: string, files: RoleFiles, failing: set<IamCall>)
    requires !ImportRolePermissions(roleName, files, failing).raised
    ensures var r := ImportRolePermissions(roleName, files, failing);
      && AttachedBy(r.calls) == ParseArns(files.attachedPolicies)
      && PutBy(r.calls) == InlineDict(files.inlinePolicies)
  {
    var create := [CreateRole(roleName, files.trustPolicy)];
    var attaches := Attaches(roleName, ParseArns(files.attachedPolicies));
    var puts := Puts(roleName, InlineDict(files.inlinePolicies));
    ProjectionsAppend(create, attaches);
    ProjectionsAppend(create + attaches, puts);
    AttachesProject(roleName, ParseArns(files.attachedPolicies));
    PutsProject(roleName, InlineDict(files.inlinePolicies));
    assert AttachedBy(create) == [] && PutBy(create) == [];
  }

  /** A blank line in attached_policies.txt makes the import attach an empty
      ARN rather than skip the line. */
  lemma BlankLineAttached(roleName: string, before: string, after: string, trust: string,
                          inline: seq<InlinePolicy>)
    requires before == [] || before[|before| - 1] == '\n'
    ensures AttachRolePolicy(roleName, "")
      in Plan(roleName, RoleFiles(trust, before + "\n" + after, inline))
  {
    BlankLineKept(before, after);
    var arns := ParseArns(before + "\n" + after);
    var i := |ParseArns(before)|;
    assert arns[i] == "";
    var p := Plan(roleName, RoleFiles(trust, before + "\n" + after, inline));
    assert p[1 + i] == AttachRolePolicy(roleName, "");
  }

  // ---------------------------------------------------------------------------
  // Export followed by import

  /** Exporting a role and importing the files with no failing call creates
      the role with its trust policy, attaches the role's policy ARNs in order
      and puts each inline policy, with its last listed document, once. When
      the listed inline names are distinct the puts are the listed policies
      themselves, in listing order. */
  lemma ExportThenImport(role: Role, inline: seq<InlinePolicy>, roleName: string)
    requires forall a :: a in AttachedArns(role) ==> Clean(a)
    ensures var exported := ExportRolePermissions(Some(role), inline);
      var r := ImportRolePermissions(roleName, exported.files, {});
      && !r.raised
      && r.calls[0] == CreateRole(roleName, role.assumeRolePolicyDocument)
      && AttachedBy(r.calls) == AttachedArns(role)
      && PutBy(r.calls) == InlineDict(inline)
      && (DistinctNames(inline) ==> PutBy(r.calls) == inline)
  {
    var files := RoleFiles(role.assumeRolePolicyDocument, SerializeArns(AttachedArns(role)), InlineDict(inline));
    assert ExportRolePermissions(Some(role), inline) == Exported(files, Documents(inline));
    ExportedArnsReadBack(role, inline);
    var r := ImportRolePermissions(roleName, files, {});
    assert !r.raised;
    ImportOrder(roleName, files, {});
    CompleteImport(roleName, files, {});
    assert AttachedBy(r.calls) == AttachedArns(role);
    InlineDictDistinct(InlineDict(inline));
    assert PutBy(r.calls) == InlineDict(inline);
    if DistinctNames(inline) {
      InlineDictDistinct(inline);
    }
  }
}
