/** `find_installer(game_path)`: the largest `.exe` below a game folder. The
    directory walk is an input, flattened to one entry per file in the order
    `os.walk` yields them, each with the size `os.path.getsize` reported or
    `None` where it raised `OSError`. */
module InstallerLocator {
  import opened Common

  /** One file seen by the walk: the directory it is in, its name, and its
      size if it could be read. */
  datatype WalkEntry = WalkEntry(root: string, name: string, size: Option<nat>)

  /** `os.path.join(root, file)` */
  function PathOf(e: WalkEntry): string {
    JoinPath(e.root, e.name)
  }

  /** An entry that can become the installer: its name ends in ".exe" in any
      case and its size could be read. */
  predicate IsCandidate(e: WalkEntry) {
    EndsWithIgnoringCase(e.name, ".exe") && e.size.Some?
  }

  /** Position of the installer among the entries: a candidate at least as
      large as every candidate, and strictly larger than every earlier one
      (ties go to the file seen first); `None` exactly when there is no
      candidate. */
  function LargestIndex(walk: seq<WalkEntry>): (r: Option<nat>)
    ensures r.Some? ==> r.value < |walk| && IsCandidate(walk[r.value])
    ensures r.Some? ==> forall j :: 0 <= j < |walk| && IsCandidate(walk[j]) ==>
                          walk[j].size.value <= walk[r.value].size.value
    ensures r.Some? ==> forall j :: 0 <= j < r.value && IsCandidate(walk[j]) ==>
                          walk[j].size.value < walk[r.value].size.value
    ensures r.None? <==> forall j :: 0 <= j < |walk| ==> !IsCandidate(walk[j])
  {
    if walk == [] then None
    else
      var prev := LargestIndex(walk[..|walk| - 1]);
      var e := walk[|walk| - 1];
      if IsCandidate(e) && (prev.None? || e.size.value > walk[prev.value].size.value)
      then Some(|walk| - 1)
      else prev
  }

  /** `find_installer(game_path)`: `None` for a path that is not a directory,
      else the path of the largest readable `.exe`. */
  function Installer(isDir: bool, walk: seq<WalkEntry>): (r: Option<string>)
    ensures !isDir ==> r.None?
    ensures isDir ==> (r.None? <==> forall j :: 0 <= j < |walk| ==> !IsCandidate(walk[j]))
    ensures r.Some? ==> exists k :: 0 <= k < |walk| && IsCandidate(walk[k]) && r.value == PathOf(walk[k])
  {
    if !isDir then None
    else match LargestIndex(walk)
      case Some(k) => Some(PathOf(walk[k]))
      case None => None
  }

  /** The loop of `find_installer`, with `max_size` starting at -1. */
  method FindInstaller(isDir: bool, walk: seq<WalkEntry>) returns (largest: Option<string>)
    ensures largest == Installer(isDir, walk)
  {
    if !isDir {
      return None;
    }
    largest := None;
    var maxSize: int := -1;
    var i := 0;
    while i < |walk|
      invariant 0 <= i <= |walk|
      invariant LargestIndex(walk[..i]).None? ==> maxSize == -1 && largest == None
      invariant LargestIndex(walk[..i]).Some? ==>
                  var k := LargestIndex(walk[..i]).value;
                  maxSize == walk[k].size.value && largest == Some(PathOf(walk[k]))
    {
      assert walk[..i + 1][..i] == walk[..i];
      var e := walk[i];
      if EndsWithIgnoringCase(e.name, ".exe") {
        var path := JoinPath(e.root, e.name);
        match e.size {
          case Some(size) =>
            if size > maxSize {
              maxSize := size;
              largest := Some(path);
            }
          case None =>
        }
      }
      i := i + 1;
    }
    assert walk[..i] == walk;
  }

  /** The characterisation in `LargestIndex`'s contract singles out one
      position: any candidate that is at least as large as all and strictly
      larger than all earlier ones is the installer. */
  lemma LargestIndexUnique(walk: seq<WalkEntry>, k: nat)
    requires k < |walk| && IsCandidate(walk[k])
    requires forall j :: 0 <= j < |walk| && IsCandidate(walk[j]) ==> walk[j].size.value <= walk[k].size.value
    requires forall j :: 0 <= j < k && IsCandidate(walk[j]) ==> walk[j].size.value < walk[k].size.value
    ensures LargestIndex(walk) == Some(k)
  {
    var r := LargestIndex(walk);
    assert r.Some?;
    assert walk[r.value].size.value == walk[k].size.value;
  }

  /** Readable `.exe` files have pairwise different sizes. */
  predicate DistinctSizes(walk: seq<WalkEntry>) {
    forall i, j :: 0 <= i < j < |walk| && IsCandidate(walk[i]) && IsCandidate(walk[j]) ==>
      walk[i].size != walk[j].size
  }

  /** When no two readable `.exe` files have the same size, the installer
      does not depend on the order in which the walk visits files. */
  lemma WalkOrderIrrelevant(walk: seq<WalkEntry>, other: seq<WalkEntry>)
    requires multiset(walk) == multiset(other)
    requires DistinctSizes(walk)
    ensures Installer(true, walk) == Installer(true, other)
  {
    var r, q := LargestIndex(walk), LargestIndex(other);
    if r.Some? {
      var x := walk[r.value];
      assert x in multiset(other);
      var j :| 0 <= j < |other| && other[j] == x;
      assert q.Some?;
      var y := other[q.value];
      assert y in multiset(walk);
      var i :| 0 <= i < |walk| && walk[i] == y;
      assert x.size.value <= y.size.value <= x.size.value;
      assert i == r.value;
    } else {
      forall j | 0 <= j < |other|
        ensures !IsCandidate(other[j])
      {
        assert other[j] in multiset(walk);
      }
    }
  }

  /** A found installer is the path of a readable file whose name ends in
      ".exe" in any case, at least as large as every readable `.exe`, and
      strictly larger than every one seen before it. */
  lemma InstallerIsLargestExe(isDir: bool, walk: seq<WalkEntry>) returns (k: nat)
    requires Installer(isDir, walk).Some?
    ensures isDir && k < |walk| && IsCandidate(walk[k])
    ensures Installer(isDir, walk) == Some(PathOf(walk[k]))
    ensures EndsWithIgnoringCase(PathOf(walk[k]), ".exe")
    ensures forall j :: 0 <= j < |walk| && IsCandidate(walk[j]) ==> walk[j].size.value <= walk[k].size.value
    ensures forall j :: 0 <= j < k && IsCandidate(walk[j]) ==> walk[j].size.value < walk[k].size.value
  {
    k := LargestIndex(walk).value;
    JoinKeepsSuffix(walk[k].root, walk[k].name, ".exe");
  }

  /** Dropping a file whose size cannot be read leaves the installer as it
      was: `OSError` entries are skipped. */
  lemma UnreadableIgnored(isDir: bool, walk: seq<WalkEntry>, i: nat)
    requires i < |walk| && walk[i].size.None?
    ensures Installer(isDir, walk[..i] + walk[i + 1..]) == Installer(isDir, walk)
  {
    var rest := walk[..i] + walk[i + 1..];
    assert forall j :: 0 <= j < i ==> rest[j] == walk[j];
    assert forall j :: i <= j < |rest| ==> rest[j] == walk[j + 1];
    match LargestIndex(walk)
    case Some(k) =>
      var k' := if k < i then k else k - 1;
      assert rest[k'] == walk[k];
      forall j | 0 <= j < |rest| && IsCandidate(rest[j])
        ensures rest[j].size.value <= rest[k'].size.value
      {
        if j >= i {
          assert rest[j] == walk[j + 1];
        }
      }
      forall j | 0 <= j < k' && IsCandidate(rest[j])
        ensures rest[j].size.value < rest[k'].size.value
      {
        if j >= i {
          assert rest[j] == walk[j + 1];
        }
      }
      LargestIndexUnique(rest, k');
    case None =>
      forall j | 0 <= j < |rest|
        ensures !IsCandidate(rest[j])
      {
        if j >= i {
          assert rest[j] == walk[j + 1];
        }
      }
  }

  /** A folder whose only `.exe` files cannot be read has no installer, and
      neither has a path that is not a directory. */
  lemma NoReadableExeNoInstaller(isDir: bool, walk: seq<WalkEntry>)
    requires forall j :: 0 <= j < |walk| && EndsWithIgnoringCase(walk[j].name, ".exe") ==> walk[j].size.None?
    ensures Installer(isDir, walk) == None
  {
  }
}
