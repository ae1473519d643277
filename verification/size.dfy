/**
  The size reconciliation rule of print_dirent. The recorded size is a
  uint32_t while the window bounds are signed ints (clusters * 512 and one
  cluster less); the comparisons convert the ints to unsigned, so with no
  clusters the lower bound wraps to 2^32 - 512.
 */
module Size {
  import opened Fat

  const Two32: int := 0x1_0000_0000

  /** An int converted to uint32_t (two's complement wrap). */
  function AsUnsigned(x: int): u32 {
    x % Two32
  }

  function ReconcileSize(size: u32, clusters: nat): (r: u32)
    ensures clusters == 0 ==> r == 0
    ensures 1 <= clusters && clusters * ClusterBytes < Two32 ==>
              (clusters - 1) * ClusterBytes < r <= clusters * ClusterBytes
    ensures (clusters * ClusterBytes < Two32
             && (clusters - 1) * ClusterBytes < size <= clusters * ClusterBytes) ==> r == size
    ensures (clusters * ClusterBytes < Two32
             && !((clusters - 1) * ClusterBytes < size <= clusters * ClusterBytes)) ==> r == clusters * ClusterBytes
  {
    var max := AsUnsigned(clusters * ClusterBytes);
    var min := AsUnsigned(clusters * ClusterBytes - ClusterBytes);
    if size > max then max
    else if size <= min then max
    else size
  }

  /** Applying the rule twice changes nothing more, for every cluster count. */
  lemma ReconcileIdempotent(size: u32, clusters: nat)
    ensures ReconcileSize(ReconcileSize(size, clusters), clusters) == ReconcileSize(size, clusters)
  {
  }

  /** A declared size of 1500 over a two-cluster chain is cut to 1024. */
  lemma SizeCutToChain()
    ensures ReconcileSize(1500, 2) == 1024
  {
  }

  /** Over three clusters, 900 is raised to 1536 and 1200 is kept. */
  lemma SizeRaisedOrKept()
    ensures ReconcileSize(900, 3) == 1536
    ensures ReconcileSize(1200, 3) == 1200
  {
  }
}
