/** The part of the store in memory that deals with clusters: the primary map, the UID index and the index by
    the name inside the spec. */
module ClusterMaps {
  import opened Basics
  import opened GoMaps
  import CL = Clusters
  import BulkLoad

  class ClusterMaps {
    const clusters: GoMap<NamespacedName, CL.Cluster>
    const uidToCluster: GoMap<string, CL.Cluster>
    const specClusters: GoMap<string, CL.Cluster>

    ghost var View: CL.ClusterState  // what the maps hold
    ghost var Repr: set<object>  // this object and the three maps

    ghost predicate Valid()
      reads this, Repr
      ensures Valid() ==> this in Repr
    {
      && this in Repr && clusters in Repr && uidToCluster in Repr && specClusters in Repr
      && uidToCluster != specClusters
      && View == CL.ClusterState(clusters.m, uidToCluster.m, specClusters.m)
    }

    constructor (rows: GoMap<NamespacedName, CL.Cluster>, uids: GoMap<string, CL.Cluster>, specs: GoMap<string, CL.Cluster>)
      requires uids != specs
      ensures Valid() && View == CL.ClusterState(rows.m, uids.m, specs.m) && Repr == {this, rows, uids, specs}
    {
      clusters, uidToCluster, specClusters := rows, uids, specs;
      View := CL.ClusterState(rows.m, uids.m, specs.m);
      Repr := {this, rows, uids, specs};
    }

    method SetCluster(c: CL.Cluster)
      requires Valid()
      modifies Repr
      ensures Valid() && Repr == old(Repr) && View == CL.SetCluster(old(View), c)
    {
      var key := c.Key();
      if key in clusters.m {
        Unindex(clusters.m[key]);
      }
      clusters.m := clusters.m[key := c];
      uidToCluster.m := uidToCluster.m[c.uid := c];
      if c.v3Name.Some? {
        specClusters.m := specClusters.m[c.v3Name.value := c];
      }
      View := CL.ClusterState(clusters.m, uidToCluster.m, specClusters.m);
    }

    /** Forgets the index entries under a cluster's UID and spec name. */
    method Unindex(c: CL.Cluster)
      requires Valid()
      modifies Repr
      ensures Valid() && Repr == old(Repr)
      ensures View == CL.ClusterState(old(View).stored, old(View).byUid - {c.uid}, CL.Unnamed(old(View).bySpec, c))
    {
      uidToCluster.m := uidToCluster.m - {c.uid};
      if c.v3Name.Some? {
        specClusters.m := specClusters.m - {c.v3Name.value};
      }
      View := CL.ClusterState(clusters.m, uidToCluster.m, specClusters.m);
    }

    method DeleteCluster(nn: NamespacedName)
      requires Valid()
      modifies Repr
      ensures Valid() && Repr == old(Repr) && View == CL.DeleteCluster(old(View), nn)
    {
      if nn in clusters.m {
        Unindex(clusters.m[nn]);
        clusters.m := clusters.m - {nn};
        View := CL.ClusterState(clusters.m, uidToCluster.m, specClusters.m);
      }
    }

    /** One round of the bulk load. */
    method Fill(c: CL.Cluster)
      requires Valid()
      modifies Repr
      ensures Valid() && Repr == old(Repr) && View == BulkLoad.LoadCluster(old(View), c)
    {
      clusters.m := clusters.m[c.Key() := c];
      uidToCluster.m := uidToCluster.m[c.uid := c];
      if c.v3Name.Some? {
        specClusters.m := specClusters.m[c.v3Name.value := c];
      }
      View := CL.ClusterState(clusters.m, uidToCluster.m, specClusters.m);
    }

    method FillAll(items: seq<CL.Cluster>)
      requires Valid()
      modifies Repr
      ensures Valid() && Repr == old(Repr) && View == BulkLoad.LoadClusters(old(View), items)
    {
      for i := 0 to |items|
        invariant Valid() && Repr == old(Repr)
        invariant View == BulkLoad.LoadClusters(old(View), items[..i])
      {
        assert items[..i + 1][..i] == items[..i];
        Fill(items[i]);
      }
      assert items[..|items|] == items;
    }

    method Copy() returns (c: ClusterMaps)
      requires Valid()
      ensures c.Valid() && fresh(c.Repr) && c.View == View
    {
      var rows := clusters.Copy();
      var uids := uidToCluster.Copy();
      var specs := specClusters.Copy();
      c := new ClusterMaps(rows, uids, specs);
    }
  }

  /** A part of a new store. */
  method NewClusterMaps() returns (c: ClusterMaps)
    ensures c.Valid() && fresh(c.Repr) && c.View == CL.ClusterState(map[], map[], map[])
  {
    var rows := new GoMap();
    var uids := new GoMap();
    var specs := new GoMap();
    c := new ClusterMaps(rows, uids, specs);
  }
}
