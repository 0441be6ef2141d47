/**
 packages/cloudflare/src/cli/commands/skew-protection.ts: the mapping from deployment ids to worker versions
 that each deploy computes from the one stored in the last deployed version.
 */
module DeploymentMapping {
  import opened Wrappers

  const CURRENT_VERSION_ID := "current"

  type Mapping = map<string, string>

  /** What an entry of the existing mapping becomes; `None` when it is dropped. */
  function Carried(version: string, versions: seq<string>): Option<string> {
    if version == CURRENT_VERSION_ID && |versions| > 0 then Some(versions[0])
    else if version in versions then Some(version)
    else None
  }

  ghost predicate IsUpdated(mapping: Mapping, versions: seq<string>, deploymentId: string, updated: Mapping) {
    && (forall d :: d in updated <==> (d in mapping && Carried(mapping[d], versions).Some?) || d == deploymentId)
    && (forall d :: d in mapping && Carried(mapping[d], versions).Some? ==>
        updated[d] == Carried(mapping[d], versions).value)
    && ((deploymentId in mapping ==> Carried(mapping[deploymentId], versions).None?) ==>
        updated[deploymentId] == CURRENT_VERSION_ID)
  }

  /** `updateDeploymentMapping`; `versions` are the ids of the listed versions, newest first. */
  method UpdateDeploymentMapping(mapping: Mapping, versions: seq<string>, deploymentId: string)
      returns (newMapping: Mapping)
    ensures IsUpdated(mapping, versions, deploymentId, newMapping)
  {
    newMapping := map[deploymentId := CURRENT_VERSION_ID];
    var entries := mapping.Keys;
    while entries != {}
      invariant entries <= mapping.Keys
      invariant IsUpdated(map d | d in mapping && d !in entries :: mapping[d], versions, deploymentId, newMapping)
      decreases |entries|
    {
      var deployment :| deployment in entries;
      var version := mapping[deployment];
      if version == CURRENT_VERSION_ID && |versions| > 0 {
        newMapping := newMapping[deployment := versions[0]];
      } else if version in versions {
        newMapping := newMapping[deployment := version];
      }
      entries := entries - {deployment};
    }
    assert (map d | d in mapping && d !in entries :: mapping[d]) == mapping;
  }

  // ---- Deploy histories

  /** One deploy: its id, the versions it saw listed, the mapping it stored and the version it created. */
  datatype Deploy = Deploy(id: string, listed: seq<string>, mapping: Mapping, version: string)

  ghost predicate DistinctIds(deploys: seq<Deploy>) {
    && (forall i, j :: 0 <= i < j < |deploys| ==> deploys[i].id != deploys[j].id)
    && (forall i, j :: 0 <= i < j < |deploys| ==> deploys[i].version != deploys[j].version)
    && (forall i :: 0 <= i < |deploys| ==> deploys[i].version != CURRENT_VERSION_ID)
  }

  /** The listing holds earlier versions, each once and the latest of them first; it may be cut short or be empty. */
  ghost predicate ListedBefore(deploys: seq<Deploy>, n: int, listed: seq<string>)
    requires 0 <= n <= |deploys|
  {
    && (listed != [] ==> n > 0 && listed[0] == deploys[n - 1].version)
    && (forall i, j :: 0 <= i < j < |listed| ==> listed[i] != listed[j])
    && (forall i :: 0 <= i < |listed| ==> listed[i] != CURRENT_VERSION_ID)
  }

  /** The mapping a deploy starts from is the one stored in the newest listed version. */
  function Existing(deploys: seq<Deploy>, n: int, listed: seq<string>): Mapping
    requires 0 <= n <= |deploys|
  {
    if listed == [] || n == 0 then map[] else deploys[n - 1].mapping
  }

  ghost predicate DeployedAt(deploys: seq<Deploy>, n: int)
    requires 0 <= n < |deploys|
  {
    && ListedBefore(deploys, n, deploys[n].listed)
    && IsUpdated(Existing(deploys, n, deploys[n].listed), deploys[n].listed, deploys[n].id, deploys[n].mapping)
  }

  ghost predicate IsHistory(deploys: seq<Deploy>) {
    DistinctIds(deploys) && forall n :: 0 <= n < |deploys| ==> DeployedAt(deploys, n)
  }

  /** `d` is the id of the deploy `j`, which created the version `d` is mapped to. */
  ghost predicate MapsToOwnVersion(deploys: seq<Deploy>, n: int, d: string)
    requires 0 <= n < |deploys| && d in deploys[n].mapping
  {
    exists j :: 0 <= j < n && deploys[j].id == d && deploys[n].mapping[d] == deploys[j].version
  }

  /** Over every history: the newest deploy alone is "current", every other mapped deploy has its own listed version. */
  lemma {:induction false} MappingIsRight(deploys: seq<Deploy>, n: int)
    requires IsHistory(deploys) && 0 <= n < |deploys|
    ensures deploys[n].id in deploys[n].mapping
    ensures forall d :: d in deploys[n].mapping ==>
              (deploys[n].mapping[d] == CURRENT_VERSION_ID <==> d == deploys[n].id)
    ensures forall d :: d in deploys[n].mapping && d != deploys[n].id ==>
              MapsToOwnVersion(deploys, n, d) && deploys[n].mapping[d] in deploys[n].listed
  {
    assert DeployedAt(deploys, n);
    var deploy := deploys[n];
    var existing := Existing(deploys, n, deploy.listed);
    if deploy.listed != [] {
      MappingIsRight(deploys, n - 1);
      assert deploy.id !in existing by {
        if deploy.id in existing { OwnVersionIsOlder(deploys, n - 1, deploy.id); }
      }
      forall d | d in deploy.mapping && d != deploy.id
        ensures MapsToOwnVersion(deploys, n, d) && deploy.mapping[d] in deploy.listed
            && deploy.mapping[d] != CURRENT_VERSION_ID
      {
        assert d in existing;
        if existing[d] == CURRENT_VERSION_ID {
          assert d == deploys[n - 1].id && deploy.mapping[d] == deploys[n - 1].version;
        } else {
          assert MapsToOwnVersion(deploys, n - 1, d);
        }
      }
    }
  }

  lemma OwnVersionIsOlder(deploys: seq<Deploy>, n: int, d: string)
    requires 0 <= n < |deploys| && d in deploys[n].mapping
    requires d != deploys[n].id ==> MapsToOwnVersion(deploys, n, d)
    ensures exists j :: 0 <= j <= n && deploys[j].id == d
  {
  }

  /** Every deploy after `j`, up to `n`, has listed the version that `j` created. */
  ghost predicate ListedSince(deploys: seq<Deploy>, j: int, n: int)
    requires 0 <= j <= n < |deploys|
  {
    forall m :: j < m <= n ==> deploys[j].version in deploys[m].listed
  }

  /** Which earlier deploys are still mapped, exactly: those whose version every deploy since has listed. */
  lemma {:induction false} StaysMappedExactly(deploys: seq<Deploy>, j: int, n: int)
    requires IsHistory(deploys) && 0 <= j <= n < |deploys|
    ensures deploys[j].id in deploys[n].mapping <==> ListedSince(deploys, j, n)
  {
    if j < n {
      StaysMappedExactly(deploys, j, n - 1);
      StaysOneMore(deploys, j, n);
      assert ListedSince(deploys, j, n) <==> ListedSince(deploys, j, n - 1) && deploys[j].version in deploys[n].listed;
    } else {
      MappingIsRight(deploys, n);
    }
  }

  /** What a mapped deploy was mapped to by the deploy before `n`. */
  lemma MappedBefore(deploys: seq<Deploy>, j: int, n: int)
    requires IsHistory(deploys) && 0 <= j < n < |deploys| && deploys[j].id in deploys[n - 1].mapping
    ensures deploys[n - 1].mapping[deploys[j].id] == if j == n - 1 then CURRENT_VERSION_ID else deploys[j].version
  {
    MappingIsRight(deploys, n - 1);
    if j < n - 1 {
      assert MapsToOwnVersion(deploys, n - 1, deploys[j].id);
    }
  }

  /** One more deploy keeps it exactly when it lists its version. */
  lemma StaysOneMore(deploys: seq<Deploy>, j: int, n: int)
    requires IsHistory(deploys) && 0 <= j < n < |deploys|
    ensures deploys[j].id in deploys[n].mapping <==>
            deploys[j].id in deploys[n - 1].mapping && deploys[j].version in deploys[n].listed
  {
    assert DeployedAt(deploys, n);
    assert deploys[j].id != deploys[n].id && deploys[j].version != CURRENT_VERSION_ID;
    if deploys[j].id in deploys[n - 1].mapping {
      MappedBefore(deploys, j, n);
    }
  }

  /** The mapping holds at most one entry more than the versions listed. */
  lemma MappingIsSmall(deploys: seq<Deploy>, n: int)
    requires IsHistory(deploys) && 0 <= n < |deploys|
    ensures |deploys[n].mapping| <= |deploys[n].listed| + 1
  {
    MappingIsRight(deploys, n);
    var mapping, id, listed := deploys[n].mapping, deploys[n].id, deploys[n].listed;
    var others := mapping.Keys - {id};
    forall a, b | a in others && b in others && mapping[a] == mapping[b]
      ensures a == b
    {
      assert MapsToOwnVersion(deploys, n, a) && MapsToOwnVersion(deploys, n, b);
    }
    InjectionIsSmall(others, mapping, listed);
    assert mapping.Keys == others + {id};
  }

  lemma {:induction false} InjectionIsSmall(keys: set<string>, mapping: Mapping, listed: seq<string>)
    requires keys <= mapping.Keys
    requires forall a, b :: a in keys && b in keys && mapping[a] == mapping[b] ==> a == b
    requires forall a :: a in keys ==> mapping[a] in listed
    ensures |keys| <= |listed|
    decreases |listed|
  {
    if listed != [] {
      var rest := listed[1..];
      if a :| a in keys && mapping[a] == listed[0] {
        forall b | b in keys - {a} ensures mapping[b] in rest { assert mapping[b] != listed[0]; }
        InjectionIsSmall(keys - {a}, mapping, rest);
        assert keys == keys - {a} + {a};
      } else {
        InjectionIsSmall(keys, mapping, rest);
      }
    } else {
      assert keys == {};
    }
  }
}
