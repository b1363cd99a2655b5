# cloud-nuke decision logic in Dafny

This project models the decision logic of the cloud-nuke cleanup scripts. It covers:

- which AMIs, key pairs and CloudTrail trails a run deregisters or deletes;
- which EC2 snapshots, volumes, Elastic IPs and placement groups count as unused, and what deleting them does;
- which Azure resource groups are selected for deletion;
- the order of deletions inside one Azure resource group;
- how an IAM role is exported to three files and recreated from them.

Each deleting function is a pure function. Its result is the ordered trace of what it does: the lines it writes through its dry-run-aware `log`, the lines it prints directly, and the SDK calls that delete or release something, plus the per-group lock listing of `check_resource_group_lock`. The listings (the `describe_*` calls of the AWS scripts, the resource-group listing, and the security-group and vault listings of `delete_resource_group`) are not effects: their responses are inputs. The `list_unused_*` functions return only their id lists, and the role export and import return their outcome; the lines these print are listed under "Left out". SDK responses are inputs. A key that may be missing from a response is an `Option`. The calls that fail are given as a set of requests.

A failure behaves as in the script:

- **Caught:** the script prints or logs the error and carries on.
- **Uncaught:** the trace ends with the failing call and the run is marked as raised.

Modules:

- `Effects`: the trace vocabulary, the dry-run tag and the projections of a trace:
  - `Targets`: the ids a given API is called on, in order;
  - `Logged` / `Printed`: the subjects of lines with a given meaning.
- `Amis`, `KeyPairs`, `CloudTrails`: the three prefix-driven deleters.
- `UnusedResources`: the `list_unused_*` and `delete_unused_*` functions of `delete_aws_resources.py`.
- `Seqs`: order-preserving selection, used by the list functions.
- `AzureResourceGroups`:
  - the selection loop of `delete_resource_groups`;
  - `check_resource_group_lock`;
  - the step order of `delete_resource_group`.
- `PolicyText`: the `attached_policies.txt` format. The exporter writes `arn + "\n"` per ARN. The importer iterates the file's lines and strips each.
- `RoleExport`, `RoleImport`: the role export and import. The exported inline-policy JSON object is an insertion-ordered dict.

The model follows the scripts on three points that are easy to misread:

- `delete_amis` does not guard `deregister_image`, so a failing deregister ends the function. `delete_cloudtrails` catches its delete errors and carries on.
- `delete_amis` writes nothing for a non-matching AMI in dry-run mode.
- A blank line in `attached_policies.txt` is not skipped on import. It becomes an attach call with an empty ARN.

## Model

| member | source | states |
|---|---|---|
| Effects.Line | delete_amis.py:12-14 | The dry-run logger writes the `[DRYRUN] ` tag followed by the unchanged text. The live logger writes the text as is. |
| Effects.UpToFirstFailure | delete_aws_keypairs.py:17-22 | An unguarded loop reaches a prefix of its ids. With no failure it reaches all of them. Otherwise it ends at the first failing id, and every earlier id succeeded. |
| Amis.DeleteAmis | delete_amis.py:11-25 | Only a live run can raise. |
| Amis.DryRunOnlyAnnounces | delete_amis.py:11-25 | A dry run never raises and never deregisters. It writes exactly one tagged "Deleting" line per matching AMI, in listing order, and nothing for the other AMIs. |
| Amis.LiveDeregistersMatching | delete_amis.py:16-20 | Live mode deregisters the AMIs whose name starts with the prefix, in listing order, up to and including the first failing deregister. It raises exactly when one of them fails. |
| Amis.LiveStopsAtFailure | delete_amis.py:16-20 | A live run that raises stops at a matching AMI whose deregister fails: the AMIs before it ran without raising, that AMI gets its "Deleting" line and its deregister, and nothing follows the failing call. |
| Amis.AmisAppend | delete_amis.py:16-25 | The AMIs are handled one at a time: once a first part of the listing runs without raising, the whole trace is that part's trace followed by the rest's, and the run raises exactly when the rest does. |
| Amis.AmisOne | delete_amis.py:16-25 | A single AMI gives exactly its own iteration's lines and call, and the run raises exactly when it matches in live mode and its deregister fails. |
| Amis.LiveAnnouncesEachDeregister | delete_amis.py:18-20 | In live mode each deregister comes right after an untagged "Deleting" line for the same image. "Deleting" lines are written only for deregistered images. |
| Amis.LiveSkipsOthers | delete_amis.py:23-25 | In a live run with no failing deregister, every non-matching AMI gets one "Skipped" line, in order. Exactly the matching AMIs are deregistered. |
| Amis.EmptyPrefixMatchesAll | delete_amis.py:17 | The empty prefix matches every AMI and skips none. |
| KeyPairs.DeleteKeyPairs | delete_aws_keypairs.py:7-22 | Only a live run can raise. |
| KeyPairs.DryRunOnlyLogs | delete_aws_keypairs.py:8-22 | A dry run is exactly one tagged "Deleting" line per matching key pair, in listing order. It makes no call and never raises. |
| KeyPairs.LiveTrace | delete_aws_keypairs.py:17-22 | A live run is an untagged "Deleting" line followed by a delete, for each matching key pair, up to and including the first failing delete. It raises exactly when one of the matching deletes fails. |
| KeyPairs.AbortEndsTrace | delete_aws_keypairs.py:21-22 | When a live run raises, its last effect is the failing delete_key_pair call, so nothing follows it. |
| KeyPairs.NonMatchingUntouched | delete_aws_keypairs.py:19 | In either mode, no line and no call concerns a key pair whose name lacks the prefix. |
| KeyPairs.EmptyPrefixMatchesAll | delete_aws_keypairs.py:19 | The empty prefix matches every key name. |
| CloudTrails.DeleteCloudTrails | delete_aws_cloud_trails.py:15-19 | A response without `trailList` gives an empty trace. Otherwise every listed trail produces at least one effect. |
| CloudTrails.EveryTrailLogged | delete_aws_cloud_trails.py:19-29 | In both modes each selected trail gets one "Deleting" line and each other trail one "Skipped" line, in listing order. All of them come from the logger of the mode. |
| CloudTrails.DryRunDeletesNothing | delete_aws_cloud_trails.py:23 | A dry run calls no delete_trail and prints no error. |
| CloudTrails.LiveDeletesSelected | delete_aws_cloud_trails.py:21-27 | Live mode deletes every selected trail once, in order, each right after its "Deleting" line. A failing delete prints an error and the loop goes on, so the printed errors are exactly the failing trails. |
| CloudTrails.MissingPrefixSelectsAll | delete_aws_cloud_trails.py:21 | A missing or empty prefix selects every trail. |
| CloudTrails.TrailsAppend | delete_aws_cloud_trails.py:19-29 | The trails are handled one at a time: the trace of a listing is the traces of its parts, in order, whatever fails. |
| CloudTrails.TrailsOne | delete_aws_cloud_trails.py:19-29 | A single trail gives exactly its own iteration: a "Deleting" line, then in live mode the delete and, when it fails, the printed error; or a "Skipping" line. |
| Seqs.Select | delete_aws_resources.py:49-53 | The kept keys are a subsequence of the keys, in listing order, and a key is kept exactly when some listed element passing the test has it. How often a repeated key is kept is fixed by SelectOne and SelectAppend. |
| Seqs.SelectOne | delete_aws_resources.py:49-53 | A single element contributes its key exactly when it passes the test, and nothing otherwise. |
| Seqs.SelectAppend | delete_aws_resources.py:49-53 | The selection from a concatenated listing is the selection from each part, in order. With SelectOne this fixes the result exactly, repeated keys included. |
| UnusedResources.SnapshotsInUse | delete_aws_resources.py:13-18 | A snapshot id is in use exactly when some block-device mapping of some private image has an Ebs part naming it. |
| UnusedResources.ListUnusedSnapshots | delete_aws_resources.py:5-34 | If either listing fails, the result is empty. Otherwise it holds the owned snapshots, in listing order, exactly when no private image references them. |
| UnusedResources.ListUnusedVolumes | delete_aws_resources.py:46-57 | If the listing fails, the result is empty. Otherwise it holds exactly the volumes whose Attachments is missing or empty, in listing order. |
| UnusedResources.ListUnusedEips | delete_aws_resources.py:69-80 | If the listing fails, the result is empty. Otherwise it holds exactly the addresses with neither an instance nor a network interface, in listing order. |
| UnusedResources.ListUnusedPlacementGroups | delete_aws_resources.py:92-103 | If the listing fails, the result is empty. Otherwise it holds exactly the groups in state `available`, in listing order. |
| UnusedResources.SnapshotsOneByOne | delete_aws_resources.py:25-29 | Snapshots are judged one at a time: a listing's result is its parts' results in order, and one snapshot is reported exactly when no private image references it. A repeated id is reported once per listing entry. |
| UnusedResources.VolumesOneByOne | delete_aws_resources.py:49-53 | Volumes are judged one at a time: a listing's result is its parts' results in order, and one volume is reported exactly when its Attachments is missing or empty. |
| UnusedResources.EipsOneByOne | delete_aws_resources.py:72-76 | Addresses are judged one at a time: a listing's result is its parts' results in order, and one address is reported exactly when it has neither an instance nor a network interface. |
| UnusedResources.PlacementGroupsOneByOne | delete_aws_resources.py:95-99 | Groups are judged one at a time: a listing's result is its parts' results in order, and one group is reported exactly when its state is `available`. |
| UnusedResources.DeleteEachContinues | delete_aws_resources.py:37-43 | Each id is deleted once, in order, whatever fails. An error is printed for exactly the failing ids and a success for exactly the others. |
| UnusedResources.DeleteUnusedSnapshots | delete_aws_resources.py:37-43 | Every given snapshot id is deleted in order, and errors are printed for exactly the failing ones. |
| UnusedResources.DeleteUnusedVolumes | delete_aws_resources.py:60-66 | Every given volume is deleted in order, and errors are printed for exactly the failing ones. |
| UnusedResources.DeleteUnusedEips | delete_aws_resources.py:83-89 | Every given allocation id is released in order, and errors are printed for exactly the failing ones. |
| UnusedResources.DeleteUnusedPlacementGroups | delete_aws_resources.py:106-112 | Every given placement group is deleted in order, and errors are printed for exactly the failing ones. |
| AzureResourceGroups.CheckResourceGroupLock | delete_azure_resources.py:13-23 | Returns the group's locks and asks the lock client about the group once. It logs "has locks" exactly when there are any and "no locks" otherwise, through the given logger. |
| AzureResourceGroups.SelectResourceGroups | delete_azure_resources.py:84-100 | A dry run selects nothing. The selection keeps listing order. A group is selected exactly when it passes the prefix test, has no locks and the run is live. |
| AzureResourceGroups.LockLookupsFollowPrefix | delete_azure_resources.py:86-95 | Locks are looked up for exactly the groups that pass the prefix test, once each, in listing order. Every selection line uses the logger of the mode. |
| AzureResourceGroups.SelectionIsFilter | delete_azure_resources.py:86-100 | The selection equals the listing filtered by the prefix, lock and live tests. |
| AzureResourceGroups.DeleteResourceGroupEffects | delete_azure_resources.py:26-64 | Deleting a group deletes each listed security group and each recovery vault once, in order, and the resource group once, whatever failed before. Every security-group delete comes before every vault delete, and every vault delete before the resource-group delete. |
| AzureResourceGroups.VaultFailureContained | delete_azure_resources.py:42-58 | Exactly the failing vault deletes are logged as failed, and the resource-group delete is still the call before the final line. |
| PolicyText.SplitLinesShape | import_aws_iam_role.py:15-16 | Iterating a text file loses nothing: the lines join back to the text. Each line is non-empty and has no newline before its end. Every line but the last ends with a newline. |
| PolicyText.Strip | import_aws_iam_role.py:16 | A stripped line is a slice of the line with whitespace at neither end, and everything cut off before or after it is whitespace. A line without surrounding whitespace is unchanged. |
| PolicyText.SerializeArns | export_aws_iam_role.py:42-44 | The written file is empty exactly when there are no ARNs, has at least one character per ARN, and otherwise ends with a newline. |
| PolicyText.SerializeSnoc | export_aws_iam_role.py:43-44 | Writing one more ARN appends exactly that ARN and one newline to the file. |
| PolicyText.ParseArns | import_aws_iam_role.py:16 | One ARN per line of the file, in order: entry `i` is line `i` stripped, so no entry has whitespace at either end. |
| PolicyText.ParseSerialize | import_aws_iam_role.py:15-16 | Reading back the file written for ARNs that hold no newline and no surrounding whitespace gives the same ARNs, in order. |
| PolicyText.ReadBackOneMore | import_aws_iam_role.py:15-16 | Writing one more ARN without a newline adds exactly one entry to what is read back: that line, stripped, even when the ARN has surrounding whitespace. |
| PolicyText.SplitAppend | import_aws_iam_role.py:15-16 | A text cut right after a newline is read as the lines of the first part followed by the lines of the second. |
| PolicyText.BlankLineKept | import_aws_iam_role.py:16 | A blank line is read as an empty ARN rather than skipped. |
| RoleExport.PolicyArns | export_aws_iam_role.py:21-24 | One ARN per attached policy, in order. |
| RoleExport.Lookup | export_aws_iam_role.py:29-35 | A dict has a value for a name exactly when it has that key. |
| RoleExport.AssignLookup | export_aws_iam_role.py:35 | After `d[name] = doc`, `name` maps to `doc` and every other key keeps its value. |
| RoleExport.AssignNames | export_aws_iam_role.py:35 | Assigning an existing key leaves the key order unchanged. A new key is added last. |
| RoleExport.AssignDistinct | export_aws_iam_role.py:35 | Assigning keeps the keys distinct. |
| RoleExport.InlineDictNames | export_aws_iam_role.py:29-35 | The built dict has a key for exactly the listed policy names. |
| RoleExport.InlineDict | export_aws_iam_role.py:29-35 | The built dict holds no name twice and has no more entries than policies listed. |
| RoleExport.InlineDictLastWins | export_aws_iam_role.py:29-35 | Each name maps to the document of the last policy listed under it. |
| RoleExport.InlineDictDistinct | export_aws_iam_role.py:29-35 | When the listed names are distinct, the dict is exactly the listed policies in listing order. |
| RoleExport.ExportRolePermissions | export_aws_iam_role.py:11-50 | A missing role writes nothing. Otherwise the trust file holds the role's assume-role policy, and each inline document is printed once, in listing order. |
| RoleExport.ExportedArnsReadBack | export_aws_iam_role.py:20-44 | For ARNs with no newline and no surrounding whitespace, the attached-policies file reads back as the role's attached ARNs, in order. A role without `AttachedPolicies` gives an empty file. |
| RoleImport.Issue | import_aws_iam_role.py:23-37 | Unguarded calls: those issued are a prefix of those planned. All of them are issued when none fails. Otherwise the run stops at the first failing call and raises, and every earlier call succeeded. |
| RoleImport.ImportRolePermissions | import_aws_iam_role.py:6-39 | The calls made are a prefix of the planned create, attach and put calls. The import raises exactly when a planned call fails. Without a failure it makes all of them. |
| RoleImport.Plan | import_aws_iam_role.py:22-37 | The planned calls start with the create, one call per line of the ARN file and per dict entry follows, all attaches precede all puts, and every call names the given role. |
| RoleImport.ImportOrder | import_aws_iam_role.py:22-37 | Whatever fails, the create comes first and the phases never go backwards. A failing create is the only call made. |
| RoleImport.CompleteImport | import_aws_iam_role.py:15-37 | An import without failure attaches the stripped lines of `attached_policies.txt`, in file order. It puts each entry of the inline dict once, in the dict's order. |
| RoleImport.BlankLineAttached | import_aws_iam_role.py:15-29 | A blank line in the ARN file plans an attach call with an empty ARN. |
| RoleImport.ExportThenImport | import_aws_iam_role.py:6-39 | Exporting a role and importing the files without failure recreates the role with its trust policy. When no attached ARN holds a newline or surrounding whitespace, it attaches the role's ARNs in order. It puts each inline name once with its last listed document. With distinct names, the puts are exactly the listed policies. |

## Left out

- The `main` functions, argument parsing and the client iterators that run a function in every region or subscription. `boto3_client.py` is not part of this model.
- `list_amis`, a single `describe_images` call. Its result is the AMI list `Amis.DeleteAmis` takes as input.
- `delete_aws_s3_objects.py` and `delete_azure_storage_blobs.py`. They are outside the modelled core.
- The thread pool of `delete_resource_groups`: group deletions are modelled one group at a time. Several groups deleted concurrently may interleave in any order.
- Interactive confirmation prompts and the `delete_aws_resources` driver, including the services other than snapshots, volumes, Elastic IPs and placement groups.
- The exact wording of log and print lines, and the region in the key-pair and trail lines. A line is modelled by its meaning and its subject.
- The diagnostic `print(snapshot_ids_in_use)` inside `list_unused_snapshots`. It writes the in-use set, not a decision.
- UnusedResources.ListUnusedSnapshots: the `Error listing unused snapshots` line printed when a listing fails is not modelled. The result is only the id list, which is empty in that case. Its ensures fix which ids are reported and their order but not how often a repeated id appears; SnapshotsOneByOne fixes that.
- UnusedResources.ListUnusedVolumes: the `Error listing volumes` line printed when the listing fails is not modelled; the result is then empty. Its ensures fix which ids are reported and their order but not how often a repeated id appears; VolumesOneByOne fixes that.
- UnusedResources.ListUnusedEips: the `Error listing Elastic IPs` line printed when the listing fails is not modelled; the result is then empty. Its ensures fix which ids are reported and their order but not how often a repeated id appears; EipsOneByOne fixes that.
- UnusedResources.ListUnusedPlacementGroups: the `Error listing unused placement groups` line printed when the listing fails is not modelled; the result is then empty. Its ensures fix which ids are reported and their order but not how often a repeated id appears; PlacementGroupsOneByOne fixes that.
- Listing failures inside `delete_key_pairs`, `delete_cloudtrails` and the Azure functions. Their listings are inputs. A failing `describe_key_pairs`, `describe_trails` or resource-group listing would raise before any effect. A failing security-group listing in `delete_resource_group` would raise before its first security-group delete (or, for a later page, part-way through that loop). A failing vault listing would raise after the security-group loop and before any vault or resource-group delete.
- `delete_resource_group` catches only `HttpResponseError` for security groups. Every modelled failure of a security-group delete is taken to be one.
- A failing lock listing in `check_resource_group_lock`, and a failing `future.result()`.
- JSON encoding and decoding, and file I/O. Documents are kept as their text, and `json.dump` then `json.load` is taken to give the document back. Missing files on import are not modelled.
- Python's universal-newline translation of `\r\n` and `\r` when reading `attached_policies.txt`. The model treats only `\n` as a line end. `str.strip` is modelled for ASCII whitespace only.
- RoleExport.ExportRolePermissions: the `not found` and `exported successfully` lines are not separate effects. The first is printed exactly when the outcome is `RoleNotFound`, the second exactly when it is `Exported`.
- RoleExport.ExportRolePermissions: only `NoSuchEntityException` from `get_role` is caught and modelled, as `None`. Any other `get_role` error propagates out of the function before a file is written; the model does not represent it.
- RoleExport.ExportRolePermissions: failures of `list_role_policies` and `get_role_policy` are not modelled. The listed inline policies and their documents are an input.
- RoleImport.ImportRolePermissions: the success line is not a separate effect. It is printed exactly when the run does not raise.
- Amis.DeleteAmis: the ensures states only that a dry run never raises. The trace itself is characterised by the lemmas that follow it.
- KeyPairs.DeleteKeyPairs: the ensures states only that a dry run never raises. The trace itself is characterised by DryRunOnlyLogs and LiveTrace.
- CloudTrails.DeleteCloudTrails: the ensures bounds the trace length. Its contents are characterised by EveryTrailLogged and LiveDeletesSelected on the loop it runs.
