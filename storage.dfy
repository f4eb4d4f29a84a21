/**
 * The blob store behind the file controller: a flat map from path to
 * contents, standing for the SFTP disk. Every file the controller manages
 * lives under one fixed root directory.
 */
module Storage {

  newtype byte = x: int | 0 <= x < 256

  type Bytes = seq<byte>

  /** The SFTP disk: path to contents. `size(path)` is the length of the contents. */
  type Disk = map<string, Bytes>

  /** The root directory every upload is written under. */
  const Root: string := "PSTO-SDN-FMS"

  /** The path an upload named `filename` is stored at: the root, a slash, the name. */
  function CanonicalPath(filename: string): (path: string)
    ensures |path| == |Root| + 1 + |filename|
    ensures path[..|Root| + 1] == Root + "/"
    ensures path[|Root| + 1..] == filename
  {
    Root + "/" + filename
  }

  /** Two different names never share a path, so one blob belongs to one name. */
  lemma CanonicalPathInjective(a: string, b: string)
    ensures CanonicalPath(a) == CanonicalPath(b) <==> a == b
  {
  }

  /** Whether `path` lies under the root directory (what a recursive listing of it returns). */
  predicate UnderRoot(path: string) {
    Root + "/" <= path
  }

  lemma CanonicalPathUnderRoot(filename: string)
    ensures UnderRoot(CanonicalPath(filename))
  {
  }

  /** The keys a recursive listing of the root directory returns. */
  function RootPaths(disk: Disk): set<string>
  {
    set p | p in disk && UnderRoot(p)
  }

  /** Writing an upload adds its path to the listing of the root and changes no other entry. */
  lemma PutUnderRoot(disk: Disk, filename: string, contents: Bytes)
    ensures RootPaths(disk[CanonicalPath(filename) := contents]) == RootPaths(disk) + {CanonicalPath(filename)}
  {
  }

  /** The elements of a listing, as a set. */
  function Elements(listing: seq<string>): set<string>
  {
    set p | p in listing
  }

  predicate Distinct(listing: seq<string>) {
    forall i, j :: 0 <= i < j < |listing| ==> listing[i] != listing[j]
  }

  /**
   * Whether `listing` is what a recursive listing of the root returns:
   * every blob under the root, each exactly once, in some order.
   */
  predicate ListsRoot(listing: seq<string>, disk: Disk) {
    Distinct(listing) && Elements(listing) == RootPaths(disk)
  }

  /** The sizes of the listed blobs, added up in listing order. */
  function SumSizes(disk: Disk, listing: seq<string>): nat
    requires forall i :: 0 <= i < |listing| ==> listing[i] in disk
  {
    if listing == [] then 0
    else SumSizes(disk, listing[..|listing| - 1]) + |disk[listing[|listing| - 1]]|
  }

  /** The total size of a set of blobs, independent of any listing order. */
  ghost function DiskUsage(disk: Disk, paths: set<string>): nat
    requires paths <= disk.Keys
    decreases paths
  {
    if paths == {} then 0
    else
      var p :| p in paths;
      |disk[p]| + DiskUsage(disk, paths - {p})
  }

  /** Any blob of the set may be taken out first: the total is the same. */
  lemma {:induction false} DiskUsageRemove(disk: Disk, paths: set<string>, x: string)
    requires paths <= disk.Keys
    requires x in paths
    ensures DiskUsage(disk, paths) == |disk[x]| + DiskUsage(disk, paths - {x})
    decreases paths
  {
    var p :| p in paths && DiskUsage(disk, paths) == |disk[p]| + DiskUsage(disk, paths - {p});
    if p != x {
      DiskUsageRemove(disk, paths - {p}, x);
      DiskUsageRemove(disk, paths - {x}, p);
      assert paths - {p} - {x} == paths - {x} - {p};
    }
  }

  /**
   * Counting and summing a duplicate-free listing gives the number of its
   * distinct paths and their total size, whatever order the listing has.
   */
  lemma {:induction false} ListingTotals(disk: Disk, listing: seq<string>)
    requires forall i :: 0 <= i < |listing| ==> listing[i] in disk
    requires Distinct(listing)
    ensures Elements(listing) <= disk.Keys
    ensures |listing| == |Elements(listing)|
    ensures SumSizes(disk, listing) == DiskUsage(disk, Elements(listing))
  {
    if listing != [] {
      var n := |listing| - 1;
      var init, last := listing[..n], listing[n];
      assert listing == init + [last];
      ListingTotals(disk, init);
      assert last !in Elements(init) by {
        forall i | 0 <= i < n ensures init[i] != last {
          assert listing[i] == init[i];
        }
      }
      assert Elements(listing) == Elements(init) + {last};
      assert Elements(listing) - {last} == Elements(init);
      DiskUsageRemove(disk, Elements(listing), last);
    }
  }

  /** A listing of the root yields the number of blobs under it and their total size. */
  lemma RootListingTotals(disk: Disk, listing: seq<string>)
    requires ListsRoot(listing, disk)
    ensures forall i :: 0 <= i < |listing| ==> listing[i] in disk
    ensures |listing| == |RootPaths(disk)|
    ensures SumSizes(disk, listing) == DiskUsage(disk, RootPaths(disk))
  {
    assert forall i :: 0 <= i < |listing| ==> listing[i] in Elements(listing);
    ListingTotals(disk, listing);
  }
}
