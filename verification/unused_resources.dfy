/** delete_aws_resources: the "unused resource" listings and the
    catch-log-continue delete loops for EC2 snapshots, volumes, Elastic IPs
    and placement groups. A listing response is None when describing, or
    reading a required key of, the response raised. */
module UnusedResources {
  import opened Wrappers
  import opened Effects
  import opened Seqs

  datatype Ebs = Ebs(snapshotId: Option<string>)
  datatype BlockDeviceMapping = BlockDeviceMapping(ebs: Option<Ebs>)
  /** A private image, reduced to its block-device mappings. */
  datatype Image = Image(blockDeviceMappings: Option<seq<BlockDeviceMapping>>)
  datatype Snapshot = Snapshot(snapshotId: string)
  /** A volume; `attachments` is None when the key is absent. */
  datatype Volume = Volume(volumeId: string, attachments: Option<seq<string>>)
  datatype Address = Address(allocationId: string, instanceId: Option<string>, networkInterfaceId: Option<string>)
  datatype PlacementGroup = PlacementGroup(groupName: string, state: string)

  // ---------------------------------------------------------------------------
  // Snapshots referenced by private images

  /** The mapping has an Ebs entry that names snapshot `id`. */
  predicate MapsSnapshot(m: BlockDeviceMapping, id: string)
  {
    m.ebs.Some? && m.ebs.value.snapshotId == Some(id)
  }

  /** Some block-device mapping of the image names snapshot `id`. */
  predicate ImageReferences(image: Image, id: string)
  {
    image.blockDeviceMappings.Some?
    && exists j :: 0 <= j < |image.blockDeviceMappings.value| && MapsSnapshot(image.blockDeviceMappings.value[j], id)
  }

  /** The SnapshotIds the mappings contribute: a mapping without Ebs, or whose
      Ebs has no SnapshotId, contributes none. */
  function MappingSnapshots(mappings: seq<BlockDeviceMapping>): (r: set<string>)
    ensures forall id :: id in r <==> exists j :: 0 <= j < |mappings| && MapsSnapshot(mappings[j], id)
  {
    if mappings == [] then {}
    else
      var m := mappings[0];
      assert forall j :: 0 < j < |mappings| ==> mappings[1..][j - 1] == mappings[j];
      (if m.ebs.Some? && m.ebs.value.snapshotId.Some? then {m.ebs.value.snapshotId.value} else {})
      + MappingSnapshots(mappings[1..])
  }

  /** `snapshot_ids_in_use`; an image without BlockDeviceMappings contributes nothing. */
  function SnapshotsInUse(images: seq<Image>): (r: set<string>)
    ensures forall id :: id in r <==> exists i :: 0 <= i < |images| && ImageReferences(images[i], id)
  {
    if images == [] then {}
    else
      assert forall i :: 0 < i < |images| ==> images[1..][i - 1] == images[i];
      MappingSnapshots(images[0].blockDeviceMappings.GetOr([])) + SnapshotsInUse(images[1..])
  }

  function SnapshotIdOf(s: Snapshot): string { s.snapshotId }
  function VolumeIdOf(v: Volume): string { v.volumeId }
  function AllocationIdOf(a: Address): string { a.allocationId }
  function GroupNameOf(g: PlacementGroup): string { g.groupName }

  /** `list_unused_snapshots`: the self-owned snapshots no private image
      refers to, in listing order; either listing failing gives []. */
  function ListUnusedSnapshots(images: Option<seq<Image>>, snapshots: Option<seq<Snapshot>>): (r: seq<string>)
    ensures images.None? || snapshots.None? ==> r == []
    ensures images.Some? && snapshots.Some? ==>
      && IsSubsequence(r, Keys(snapshots.value, SnapshotIdOf))
      && forall id :: id in r <==>
           && (exists k :: 0 <= k < |snapshots.value| && snapshots.value[k].snapshotId == id)
           && !(exists i :: 0 <= i < |images.value| && ImageReferences(images.value[i], id))
  {
    if images.None? || snapshots.None? then []
    else
      Select(snapshots.value, NotInUse(SnapshotsInUse(images.value)), SnapshotIdOf)
  }

  /** The snapshot filter of `list_unused_snapshots`, for a given in-use set. */
  function NotInUse(inUse: set<string>): Snapshot -> bool
  {
    (s: Snapshot) => s.snapshotId !in inUse
  }

  /** Each snapshot is judged on its own: the result for a listing is the
      results for its parts, in order, and a single snapshot is reported
      exactly when no image refers to it. So a repeated id is reported once
      per listing entry, where it is listed. */
  lemma SnapshotsOneByOne(images: seq<Image>, a: seq<Snapshot>, b: seq<Snapshot>, s: Snapshot)
    ensures ListUnusedSnapshots(Some(images), Some(a + b))
         == ListUnusedSnapshots(Some(images), Some(a)) + ListUnusedSnapshots(Some(images), Some(b))
    ensures ListUnusedSnapshots(Some(images), Some([s]))
         == if exists i :: 0 <= i < |images| && ImageReferences(images[i], s.snapshotId) then [] else [s.snapshotId]
  {
    var keep := NotInUse(SnapshotsInUse(images));
    SelectAppend(a, b, keep, SnapshotIdOf);
    SelectOne(s, keep, SnapshotIdOf);
  }

  /** `list_unused_volumes`: the volumes whose Attachments is absent or empty. */
  function ListUnusedVolumes(volumes: Option<seq<Volume>>): (r: seq<string>)
    ensures volumes.None? ==> r == []
    ensures volumes.Some? ==>
      && IsSubsequence(r, Keys(volumes.value, VolumeIdOf))
      && forall id :: id in r <==>
           exists k :: 0 <= k < |volumes.value|
             && volumes.value[k].volumeId == id
             && (volumes.value[k].attachments.None? || volumes.value[k].attachments.value == [])
  {
    if volumes.None? then []
    else Select(volumes.value, Detached, VolumeIdOf)
  }

  /** The volume filter of `list_unused_volumes`. */
  predicate Detached(v: Volume)
  {
    v.attachments.None? || v.attachments.value == []
  }

  /** Each volume is judged on its own: the result for a listing is the
      results for its parts, in order, and a single volume is reported
      exactly when it has no attachment. */
  lemma VolumesOneByOne(a: seq<Volume>, b: seq<Volume>, v: Volume)
    ensures ListUnusedVolumes(Some(a + b)) == ListUnusedVolumes(Some(a)) + ListUnusedVolumes(Some(b))
    ensures ListUnusedVolumes(Some([v]))
         == if v.attachments.None? || v.attachments.value == [] then [v.volumeId] else []
  {
    SelectAppend(a, b, Detached, VolumeIdOf);
    SelectOne(v, Detached, VolumeIdOf);
  }

  /** Python truthiness of an optional string field read with `.get`. */
  predicate Truthy(field: Option<string>)
  {
    field.Some? && field.value != ""
  }

  /** `list_unused_eips`: the addresses with neither an InstanceId nor a
      NetworkInterfaceId (absent or empty). */
  function ListUnusedEips(addresses: Option<seq<Address>>): (r: seq<string>)
    ensures addresses.None? ==> r == []
    ensures addresses.Some? ==>
      && IsSubsequence(r, Keys(addresses.value, AllocationIdOf))
      && forall id :: id in r <==>
           exists k :: 0 <= k < |addresses.value|
             && addresses.value[k].allocationId == id
             && (addresses.value[k].instanceId.None? || addresses.value[k].instanceId == Some(""))
             && (addresses.value[k].networkInterfaceId.None? || addresses.value[k].networkInterfaceId == Some(""))
  {
    if addresses.None? then []
    else Select(addresses.value, Unassociated, AllocationIdOf)
  }

  /** The address filter of `list_unused_eips`. */
  predicate Unassociated(a: Address)
  {
    !Truthy(a.instanceId) && !Truthy(a.networkInterfaceId)
  }

  /** Each address is judged on its own: the result for a listing is the
      results for its parts, in order, and a single address is reported
      exactly when it has neither an instance nor a network interface. */
  lemma EipsOneByOne(a: seq<Address>, b: seq<Address>, x: Address)
    ensures ListUnusedEips(Some(a + b)) == ListUnusedEips(Some(a)) + ListUnusedEips(Some(b))
    ensures ListUnusedEips(Some([x]))
         == if (x.instanceId.None? || x.instanceId == Some(""))
               && (x.networkInterfaceId.None? || x.networkInterfaceId == Some(""))
            then [x.allocationId] else []
  {
    SelectAppend(a, b, Unassociated, AllocationIdOf);
    SelectOne(x, Unassociated, AllocationIdOf);
  }

  /** `list_unused_placement_groups`: the groups in state "available". */
  function ListUnusedPlacementGroups(groups: Option<seq<PlacementGroup>>): (r: seq<string>)
    ensures groups.None? ==> r == []
    ensures groups.Some? ==>
      && IsSubsequence(r, Keys(groups.value, GroupNameOf))
      && forall name :: name in r <==>
           exists k :: 0 <= k < |groups.value|
             && groups.value[k].groupName == name && groups.value[k].state == "available"
  {
    if groups.None? then []
    else Select(groups.value, Available, GroupNameOf)
  }

  /** The placement-group filter of `list_unused_placement_groups`. */
  predicate Available(g: PlacementGroup)
  {
    g.state == "available"
  }

  /** Each group is judged on its own: the result for a listing is the
      results for its parts, in order, and a single group is reported
      exactly when its state is "available". */
  lemma PlacementGroupsOneByOne(a: seq<PlacementGroup>, b: seq<PlacementGroup>, g: PlacementGroup)
    ensures ListUnusedPlacementGroups(Some(a + b))
         == ListUnusedPlacementGroups(Some(a)) + ListUnusedPlacementGroups(Some(b))
    ensures ListUnusedPlacementGroups(Some([g])) == if g.state == "available" then [g.groupName] else []
  {
    SelectAppend(a, b, Available, GroupNameOf);
    SelectOne(g, Available, GroupNameOf);
  }

  // ---------------------------------------------------------------------------
  // Catch-log-continue delete loops

  /** What the loop body prints after calling `api` on `id`. */
  function Outcome(api: Api, id: string, failing: set<Request>): Effect
  {
    Print(if Request(api, id) in failing then Failed else Succeeded, id)
  }

  /** The loop body for one id: the call, then its outcome. */
  function DeleteStep(api: Api, id: string, failing: set<Request>): seq<Effect>
  {
    [Call(Request(api, id)), Outcome(api, id, failing)]
  }

  lemma DeleteStepFacts(api: Api, id: string, failing: set<Request>)
    ensures var s := DeleteStep(api, id, failing);
      && Targets(s, api) == [id]
      && Printed(s, Failed) == (if Request(api, id) in failing then [id] else [])
      && Printed(s, Succeeded) == (if Request(api, id) in failing then [] else [id])
  {
    var s := DeleteStep(api, id, failing);
    Project2(s[0], s[1], api, Failed);
    Project2(s[0], s[1], api, Succeeded);
  }

  /** One call per id, each followed by a success or error print. */
  function DeleteEach(api: Api, ids: seq<string>, failing: set<Request>): (r: seq<Effect>)
    ensures |r| == 2 * |ids|
    ensures forall i :: 0 <= i < |ids| ==>
      r[2 * i] == Call(Request(api, ids[i])) && r[2 * i + 1] == Outcome(api, ids[i], failing)
  {
    if ids == [] then []
    else
      var rest := DeleteEach(api, ids[1..], failing);
      var r := DeleteStep(api, ids[0], failing) + rest;
      assert forall i :: 0 < i < |ids| ==>
        r[2 * i] == Call(Request(api, ids[i])) && r[2 * i + 1] == Outcome(api, ids[i], failing)
      by {
        forall i | 0 < i < |ids|
          ensures r[2 * i] == Call(Request(api, ids[i])) && r[2 * i + 1] == Outcome(api, ids[i], failing)
        {
          var j := i - 1;
          assert ids[1..][j] == ids[i];
          assert 2 * i == 2 * j + 2;
          assert r[2 * j + 2] == rest[2 * j];
          assert r[2 * j + 3] == rest[2 * j + 1];
        }
      }
      r
  }

  /** The loop calls `api` once per id, in order, whatever fails, and prints
      an error for exactly the failing ids and a success for the others. */
  lemma {:induction false} DeleteEachContinues(api: Api, ids: seq<string>, failing: set<Request>)
    ensures var r := DeleteEach(api, ids, failing);
      && Targets(r, api) == ids
      && Printed(r, Failed) == FailingOf(api, ids, failing)
      && Printed(r, Succeeded) == PassingOf(api, ids, failing)
  {
    if ids != [] {
      DeleteEachContinues(api, ids[1..], failing);
      var step := DeleteStep(api, ids[0], failing);
      var rest := DeleteEach(api, ids[1..], failing);
      DeleteStepFacts(api, ids[0], failing);
      TargetsAppend(step, rest, api);
      PrintedAppend(step, rest, Failed);
      PrintedAppend(step, rest, Succeeded);
    }
  }

  /** `delete_unused_snapshots`. */
  function DeleteUnusedSnapshots(snapshotIds: seq<string>, failing: set<Request>): (r: seq<Effect>)
    ensures Targets(r, DeleteSnapshot) == snapshotIds
    ensures Printed(r, Failed) == FailingOf(DeleteSnapshot, snapshotIds, failing)
  {
    DeleteEachContinues(DeleteSnapshot, snapshotIds, failing);
    DeleteEach(DeleteSnapshot, snapshotIds, failing)
  }

  /** `delete_unused_volumes`. */
  function DeleteUnusedVolumes(volumeIds: seq<string>, failing: set<Request>): (r: seq<Effect>)
    ensures Targets(r, DeleteVolume) == volumeIds
    ensures Printed(r, Failed) == FailingOf(DeleteVolume, volumeIds, failing)
  {
    DeleteEachContinues(DeleteVolume, volumeIds, failing);
    DeleteEach(DeleteVolume, volumeIds, failing)
  }

  /** `delete_unused_eips`: one release_address per allocation id. */
  function DeleteUnusedEips(allocationIds: seq<string>, failing: set<Request>): (r: seq<Effect>)
    ensures Targets(r, ReleaseAddress) == allocationIds
    ensures Printed(r, Failed) == FailingOf(ReleaseAddress, allocationIds, failing)
  {
    DeleteEachContinues(ReleaseAddress, allocationIds, failing);
    DeleteEach(ReleaseAddress, allocationIds, failing)
  }

  /** `delete_unused_placement_groups`. */
  function DeleteUnusedPlacementGroups(groupNames: seq<string>, failing: set<Request>): (r: seq<Effect>)
    ensures Targets(r, DeletePlacementGroup) == groupNames
    ensures Printed(r, Failed) == FailingOf(DeletePlacementGroup, groupNames, failing)
  {
    DeleteEachContinues(DeletePlacementGroup, groupNames, failing);
    DeleteEach(DeletePlacementGroup, groupNames, failing)
  }
}
