/** export_role_permissions: read a role's trust policy, attached policy ARNs
    and inline policies and write them to three files. JSON documents are
    kept as their text; `json.dump` followed by `json.load` is taken to give
    the document back. */
module RoleExport {
  import opened Wrappers
  import opened PolicyText

  /** An entry of the role's `AttachedPolicies`, reduced to its ARN. */
  datatype AttachedPolicy = AttachedPolicy(policyArn: string)

  /** The `Role` of a get_role response, reduced to the fields read;
      `AttachedPolicies` may be missing. */
  datatype Role = Role(assumeRolePolicyDocument: string, attachedPolicies: Option<seq<AttachedPolicy>>)

  /** An inline policy name and its document. */
  datatype InlinePolicy = InlinePolicy(name: string, document: string)

  /** The contents of trust_policy.json, attached_policies.txt and
      inline_policies_permissions.json. The JSON object is kept as its
      entries in insertion order, which is the order `json.dump` writes. */
  datatype RoleFiles = RoleFiles(trustPolicy: string, attachedPolicies: string, inlinePolicies: seq<InlinePolicy>)

  /** A missing role returns before any file is written; otherwise the files
      are written and each inline document was printed, in listing order. */
  datatype ExportOutcome =
    | RoleNotFound
    | Exported(files: RoleFiles, printed: seq<string>)

  // ---------------------------------------------------------------------------
  // Attached policies

  function PolicyArns(ps: seq<AttachedPolicy>): (arns: seq<string>)
    ensures |arns| == |ps|
    ensures forall i :: 0 <= i < |ps| ==> arns[i] == ps[i].policyArn
  {
    if ps == [] then [] else [ps[0].policyArn] + PolicyArns(ps[1..])
  }

  /** The ARNs of the attached policies, or none when the key is missing. */
  function AttachedArns(role: Role): seq<string>
  {
    match role.attachedPolicies
    case None => []
    case Some(ps) => PolicyArns(ps)
  }

  // ---------------------------------------------------------------------------
  // Inline policies as an insertion-ordered dict

  function Names(d: seq<InlinePolicy>): (r: seq<string>)
    ensures |r| == |d|
    ensures forall i :: 0 <= i < |d| ==> r[i] == d[i].name
  {
    if d == [] then [] else [d[0].name] + Names(d[1..])
  }

  function Documents(d: seq<InlinePolicy>): (r: seq<string>)
    ensures |r| == |d|
    ensures forall i :: 0 <= i < |d| ==> r[i] == d[i].document
  {
    if d == [] then [] else [d[0].document] + Documents(d[1..])
  }

  /** No string occurs twice. */
  predicate Distinct(s: seq<string>)
  {
    forall i, j :: 0 <= i < j < |s| ==> s[i] != s[j]
  }

  /** No name occurs twice, as in a dict. */
  predicate DistinctNames(d: seq<InlinePolicy>)
  {
    Distinct(Names(d))
  }

  /** `d[name]`: the document stored under `name`, if any. */
  function Lookup(d: seq<InlinePolicy>, name: string): (r: Option<string>)
    ensures r.None? <==> name !in Names(d)
  {
    if d == [] then None
    else if d[0].name == name then Some(d[0].document)
    else Lookup(d[1..], name)
  }

  /** `d[name] = doc`: an existing key keeps its place and takes the new value;
      a new key goes last. */
  function Assign(d: seq<InlinePolicy>, name: string, doc: string): (r: seq<InlinePolicy>)
  {
    if d == [] then [InlinePolicy(name, doc)]
    else if d[0].name == name then [InlinePolicy(name, doc)] + d[1..]
    else [d[0]] + Assign(d[1..], name, doc)
  }

  /** After assigning, `name` maps to `doc` and every other key keeps its value. */
  lemma {:induction false} AssignLookup(d: seq<InlinePolicy>, name: string, doc: string, n: string)
    ensures Lookup(Assign(d, name, doc), n) == (if n == name then Some(doc) else Lookup(d, n))
  {
    if d != [] && d[0].name != name {
      AssignLookup(d[1..], name, doc, n);
      assert Assign(d, name, doc)[1..] == Assign(d[1..], name, doc);
    }
  }

  /** Assigning moves no key: a present key stays where it is, a new one goes last. */
  lemma {:induction false} AssignNames(d: seq<InlinePolicy>, name: string, doc: string)
    ensures Names(Assign(d, name, doc)) == (if name in Names(d) then Names(d) else Names(d) + [name])
  {
    if d != [] {
      var r := Assign(d, name, doc);
      assert Names(d) == [d[0].name] + Names(d[1..]);
      if d[0].name == name {
        assert r[1..] == d[1..];
        assert Names(r) == [name] + Names(d[1..]);
      } else {
        AssignNames(d[1..], name, doc);
        assert r[1..] == Assign(d[1..], name, doc);
        assert Names(r) == [d[0].name] + Names(r[1..]);
        assert name in Names(d) <==> name in Names(d[1..]);
      }
    }
  }

  /** Assigning keeps the keys distinct. */
  lemma AssignDistinct(d: seq<InlinePolicy>, name: string, doc: string)
    requires DistinctNames(d)
    ensures DistinctNames(Assign(d, name, doc))
  {
    AssignNames(d, name, doc);
    if name !in Names(d) {
      var s := Names(d) + [name];
      forall i, j | 0 <= i < j < |s|
        ensures s[i] != s[j]
      {
        if j == |s| - 1 {
          assert s[i] in Names(d);
        }
      }
    }
  }

  /** The dict the export loop builds: `d[policy_name] = permissions` for
      each listed policy, in listing order. `json.load` of an object with
      repeated keys builds the same dict: no key twice, and no more entries
      than policies listed. */
  function InlineDict(inline: seq<InlinePolicy>): (r: seq<InlinePolicy>)
    ensures DistinctNames(r)
    ensures |r| <= |inline|
  {
    if inline == [] then []
    else
      var last := inline[|inline| - 1];
      var init := InlineDict(inline[..|inline| - 1]);
      AssignDistinct(init, last.name, last.document);
      AssignNames(init, last.name, last.document);
      Assign(init, last.name, last.document)
  }

  /** Entry `i` is the last one listed under its name. */
  predicate LastListed(inline: seq<InlinePolicy>, i: int)
    requires 0 <= i < |inline|
  {
    forall j :: i < j < |inline| ==> inline[j].name != inline[i].name
  }

  lemma NamesSnoc(d: seq<InlinePolicy>)
    requires d != []
    ensures Names(d) == Names(d[..|d| - 1]) + [d[|d| - 1].name]
  {
    var init := d[..|d| - 1];
    var r := Names(init) + [d[|d| - 1].name];
    forall i | 0 <= i < |d|
      ensures Names(d)[i] == r[i]
    {
      if i < |d| - 1 {
        assert init[i] == d[i];
      }
    }
  }

  /** The dict has a key for each listed name and for nothing else. */
  lemma {:induction false} InlineDictNames(inline: seq<InlinePolicy>, n: string)
    ensures n in Names(InlineDict(inline)) <==> n in Names(inline)
  {
    if inline != [] {
      var k := |inline| - 1;
      var init := inline[..k];
      InlineDictNames(init, n);
      AssignNames(InlineDict(init), inline[k].name, inline[k].document);
      NamesSnoc(inline);
    }
  }

  /** The value of each name is the document of the last policy listed under it. */
  lemma {:induction false} InlineDictLastWins(inline: seq<InlinePolicy>, i: int)
    requires 0 <= i < |inline| && LastListed(inline, i)
    ensures Lookup(InlineDict(inline), inline[i].name) == Some(inline[i].document)
  {
    var k := |inline| - 1;
    var init := inline[..k];
    var last := inline[k];
    var n := inline[i].name;
    assert InlineDict(inline) == Assign(InlineDict(init), last.name, last.document);
    AssignLookup(InlineDict(init), last.name, last.document, n);
    if i < k {
      assert last.name != n;
      assert init[i] == inline[i];
      assert LastListed(init, i) by {
        assert forall j :: i < j < |init| ==> init[j] == inline[j];
      }
      InlineDictLastWins(init, i);
    }
  }

  /** Listing distinct names builds the dict of exactly those policies, in order. */
  lemma {:induction false} InlineDictDistinct(inline: seq<InlinePolicy>)
    requires DistinctNames(inline)
    ensures InlineDict(inline) == inline
  {
    if inline != [] {
      var k := |inline| - 1;
      var init := inline[..k];
      var last := inline[k];
      assert InlineDict(inline) == Assign(InlineDict(init), last.name, last.document);
      DistinctSnoc(inline);
      InlineDictDistinct(init);
      AssignAppends(init, last.name, last.document);
      assert init + [InlinePolicy(last.name, last.document)] == inline;
    }
  }

  /** Dropping the last policy keeps the names distinct, and the last name
      does not occur among the others. */
  lemma DistinctSnoc(d: seq<InlinePolicy>)
    requires d != [] && DistinctNames(d)
    ensures DistinctNames(d[..|d| - 1])
    ensures d[|d| - 1].name !in Names(d[..|d| - 1])
  {
    var init := d[..|d| - 1];
    assert forall i :: 0 <= i < |init| ==> Names(init)[i] == Names(d)[i];
  }

  /** A new key goes at the end. */
  lemma {:induction false} AssignAppends(d: seq<InlinePolicy>, name: string, doc: string)
    requires name !in Names(d)
    ensures Assign(d, name, doc) == d + [InlinePolicy(name, doc)]
  {
    if d != [] {
      assert Names(d) == [d[0].name] + Names(d[1..]);
      AssignAppends(d[1..], name, doc);
      assert Assign(d, name, doc) == [d[0]] + (d[1..] + [InlinePolicy(name, doc)]);
      assert d == [d[0]] + d[1..];
    }
  }

  // ---------------------------------------------------------------------------
  // The export

  /** `export_role_permissions(role_name)`, given the get_role response (None
      when the role does not exist) and the inline policies as listed with
      their fetched documents. */
  function ExportRolePermissions(role: Option<Role>, inline: seq<InlinePolicy>): (r: ExportOutcome)
    ensures role.None? <==> r.RoleNotFound?
    ensures r.Exported? ==>
      && r.files.trustPolicy == role.value.assumeRolePolicyDocument
      && |r.printed| == |inline|
      && forall i :: 0 <= i < |inline| ==> r.printed[i] == inline[i].document
  {
    match role
    case None => RoleNotFound
    case Some(details) =>
      var files := RoleFiles(details.assumeRolePolicyDocument,
                             SerializeArns(AttachedArns(details)),
                             InlineDict(inline));
      Exported(files, Documents(inline))
  }

  /** Reading attached_policies.txt back gives the role's attached ARNs, in
      order, when no ARN holds a newline or surrounding whitespace; a role
      without the key gives an empty file. */
  lemma ExportedArnsReadBack(role: Role, inline: seq<InlinePolicy>)
    requires forall a :: a in AttachedArns(role) ==> Clean(a)
    ensures var r := ExportRolePermissions(Some(role), inline);
      && ParseArns(r.files.attachedPolicies) == AttachedArns(role)
      && (role.attachedPolicies.None? ==> r.files.attachedPolicies == "")
  {
    var arns := AttachedArns(role);
    assert forall i :: 0 <= i < |arns| ==> Clean(arns[i]) by {
      assert forall i :: 0 <= i < |arns| ==> arns[i] in arns;
    }
    ParseSerialize(arns);
  }
}
