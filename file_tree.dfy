/** A directory tree as `os.walk` lists it, and `os.path.join` on
    `/`-separated paths. Reading a file gives its lines (the ones Python's text-mode
    iteration yields, up to a read error if one happens). */
module FileTree {
  import opened Text

  /** A file: its bare name and its lines. */
  datatype File = File(name: string, lines: seq<string>)

  /** One `(dirpath, dirnames, filenames)` triple of `os.walk`, with the files it names. */
  datatype WalkEntry = WalkEntry(dirpath: string, files: seq<File>)

  /** A walked file: the path `os.path.join(dirpath, filename)` and the file. */
  datatype Walked = Walked(path: string, file: File)

  /** `os.path.join(a, b)` for POSIX paths. */
  function JoinPath(a: string, b: string): (r: string)
    ensures EndsWith(r, b)
    ensures b != [] && b[0] == '/' ==> r == b
    ensures (b == [] || b[0] != '/') && a != [] && a[|a| - 1] != '/' ==> r == a + "/" + b
    ensures (b == [] || b[0] != '/') && (a == [] || a[|a| - 1] == '/') ==> r == a + b
  {
    var r := if b != [] && b[0] == '/' then b
             else if a == [] || a[|a| - 1] == '/' then a + b
             else a + "/" + b;
    assert r[|r| - |b|..] == b;
    r
  }

  /** Joining a directory and a file name free of `/` gives a path whose last
      component is that name: it ends with the name, has no `/` within it, and the
      character before it, if any, is a `/`. */
  lemma JoinLastComponent(dir: string, name: string)
    requires '/' !in name
    ensures EndsWith(JoinPath(dir, name), name)
    ensures forall k :: |JoinPath(dir, name)| - |name| <= k < |JoinPath(dir, name)| ==> JoinPath(dir, name)[k] != '/'
    ensures |JoinPath(dir, name)| > |name| ==> JoinPath(dir, name)[|JoinPath(dir, name)| - |name| - 1] == '/'
  {
    var p := JoinPath(dir, name);
    var t := |p| - |name|;
    assert p[t..] == name;
    forall k | t <= k < |p| ensures p[k] != '/' {
      assert p[k] == name[k - t];
      assert name[k - t] in name;
    }
    if t > 0 {
      assert p[t - 1] == '/';
    }
  }

  /** The `.adoc` files are those whose name ends in `.adoc`. */
  predicate IsAdoc(name: string) {
    EndsWith(name, ".adoc")
  }

  /** The files of one walk entry, with their joined paths, in listing order. */
  function EntryListing(dirpath: string, files: seq<File>): (r: seq<Walked>)
    ensures |r| == |files|
    ensures forall i :: 0 <= i < |r| ==> r[i] == Walked(JoinPath(dirpath, files[i].name), files[i])
  {
    seq(|files|, i requires 0 <= i < |files| => Walked(JoinPath(dirpath, files[i].name), files[i]))
  }

  /** Listing one more file of an entry appends that file. */
  lemma EntryListingSnoc(dirpath: string, files: seq<File>, j: int)
    requires 0 <= j < |files|
    ensures EntryListing(dirpath, files[..j + 1])
            == EntryListing(dirpath, files[..j]) + [Walked(JoinPath(dirpath, files[j].name), files[j])]
  {
    var a := EntryListing(dirpath, files[..j + 1]);
    var b := EntryListing(dirpath, files[..j]) + [Walked(JoinPath(dirpath, files[j].name), files[j])];
    assert |a| == |b|;
    forall k | 0 <= k < j + 1 ensures a[k] == b[k] {
      if k < j {
        assert files[..j + 1][k] == files[..j][k];
      }
    }
    assert a == b;
  }

  /** Every file of the walk, entry after entry, in the order the loops visit them. */
  function Listing(walk: seq<WalkEntry>): seq<Walked> {
    if walk == [] then [] else EntryListing(walk[0].dirpath, walk[0].files) + Listing(walk[1..])
  }

  /** Listing a walk made of two parts lists the first part, then the second. */
  lemma {:induction false} ListingAppend(a: seq<WalkEntry>, b: seq<WalkEntry>)
    ensures Listing(a + b) == Listing(a) + Listing(b)
  {
    if a == [] {
      assert a + b == b;
    } else {
      assert (a + b)[1..] == a[1..] + b;
      ListingAppend(a[1..], b);
    }
  }

  /** Listing one more entry of the walk appends the files of that entry. */
  lemma ListingSnoc(walk: seq<WalkEntry>, i: int)
    requires 0 <= i < |walk|
    ensures Listing(walk[..i + 1]) == Listing(walk[..i]) + EntryListing(walk[i].dirpath, walk[i].files)
  {
    ListingAppend(walk[..i], [walk[i]]);
    assert walk[..i + 1] == walk[..i] + [walk[i]];
    assert Listing([walk[i]]) == EntryListing(walk[i].dirpath, walk[i].files) + Listing([]);
  }

  /** The walked form of the `j`-th file of the `i`-th entry. */
  function WalkedAt(walk: seq<WalkEntry>, i: int, j: int): Walked
    requires 0 <= i < |walk| && 0 <= j < |walk[i].files|
  {
    Walked(JoinPath(walk[i].dirpath, walk[i].files[j].name), walk[i].files[j])
  }

  /** Where the `j`-th file of the `i`-th entry sits in the listing. */
  function Position(walk: seq<WalkEntry>, i: int, j: int): int
    requires 0 <= i < |walk| && 0 <= j < |walk[i].files|
    decreases i
  {
    if i == 0 then j else |walk[0].files| + Position(walk[1..], i - 1, j)
  }

  /** The listing holds every file of the walk... */
  lemma {:induction false} ListingIndex(walk: seq<WalkEntry>, i: int, j: int)
    requires 0 <= i < |walk| && 0 <= j < |walk[i].files|
    ensures 0 <= Position(walk, i, j) < |Listing(walk)|
    ensures Listing(walk)[Position(walk, i, j)] == WalkedAt(walk, i, j)
    decreases i
  {
    var head := EntryListing(walk[0].dirpath, walk[0].files);
    var tail := Listing(walk[1..]);
    assert Listing(walk) == head + tail;
    if i > 0 {
      var k := Position(walk[1..], i - 1, j);
      assert 0 <= k < |tail| && tail[k] == WalkedAt(walk, i, j) by {
        ListingIndex(walk[1..], i - 1, j);
        assert walk[1..][i - 1] == walk[i];
      }
      AppendIndexRight(head, tail, k);
    } else {
      AppendIndexLeft(head, tail, j);
    }
  }

  /** ...and nothing else. */
  lemma {:induction false} ListingSource(walk: seq<WalkEntry>, k: int)
    requires 0 <= k < |Listing(walk)|
    ensures exists i, j :: 0 <= i < |walk| && 0 <= j < |walk[i].files| && Listing(walk)[k] == WalkedAt(walk, i, j)
    decreases |walk|
  {
    var head := EntryListing(walk[0].dirpath, walk[0].files);
    if k < |head| {
      assert Listing(walk)[k] == WalkedAt(walk, 0, k);
    } else {
      ListingSource(walk[1..], k - |head|);
      var i, j :| 0 <= i < |walk[1..]| && 0 <= j < |walk[1..][i].files|
                  && Listing(walk[1..])[k - |head|] == WalkedAt(walk[1..], i, j);
      assert walk[1..][i] == walk[i + 1];
      assert Listing(walk)[k] == WalkedAt(walk, i + 1, j);
    }
  }
}
