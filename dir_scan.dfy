/**
 * The directory scanner behind the middle panel, over an abstract listing:
 * it keeps the names of the regular files whose extension is exactly "txt",
 * in listing order, and fails as a whole on the first unreadable entry.
 */
module DirScan {
  import opened Wrappers

  /**
   * A directory entry as the scan sees it: its file name, whether its path
   * is a regular file, and the extension of its path, if any.
   */
  datatype Entry = Entry(name: string, isFile: bool, extension: Option<string>)

  /** One step of the directory iterator: an entry, or an error reading it. */
  datatype EntryRead = Read(entry: Entry) | EntryError

  /** The listing of the working directory, or the error of finding or opening it. */
  datatype Listing = Listing(entries: seq<EntryRead>) | DirError

  datatype Scan = Files(names: seq<string>) | ScanError

  /** The filter: a regular file whose extension is "txt", compared case-sensitively. */
  predicate IsTxtFile(e: Entry) {
    e.isFile && e.extension == Some("txt")
  }

  /** An entry contributes `name` to the scan. */
  predicate Contributes(r: EntryRead, name: string) {
    r.Read? && IsTxtFile(r.entry) && r.entry.name == name
  }

  /** The scan of a sequence of iterator steps, taken in order. */
  function ScanEntries(entries: seq<EntryRead>): (r: Scan)
    ensures r.ScanError? <==> exists i :: 0 <= i < |entries| && entries[i].EntryError?
    ensures r.Files? ==> |r.names| <= |entries|
    ensures r.Files? ==> forall n :: n in r.names <==>
      exists i :: 0 <= i < |entries| && Contributes(entries[i], n)
    decreases |entries|
  {
    if entries == [] then Files([])
    else
      var prefix, last := entries[..|entries| - 1], entries[|entries| - 1];
      match ScanEntries(prefix)
      case ScanError => ScanError
      case Files(names) =>
        match last
        case EntryError => ScanError
        case Read(e) => Files(if IsTxtFile(e) then names + [e.name] else names)
  }

  /** The scan of a listing: failing to list the directory fails the scan. */
  function ScanListing(listing: Listing): (r: Scan)
    ensures listing.DirError? ==> r.ScanError?
  {
    match listing
    case DirError => ScanError
    case Listing(entries) => ScanEntries(entries)
  }

  /** The pass over the directory iterator, as the program's `for` loop. */
  method GetTxtFiles(listing: Listing) returns (r: Scan)
    ensures r == ScanListing(listing)
  {
    if listing.DirError? {
      return ScanError;
    }
    var entries := listing.entries;
    var names: seq<string> := [];
    var i := 0;
    while i < |entries|
      invariant i <= |entries|
      invariant ScanEntries(entries[..i]) == Files(names)
    {
      assert entries[..i + 1][..i] == entries[..i];
      match entries[i] {
        case EntryError =>
          return ScanError;
        case Read(e) =>
          if IsTxtFile(e) {
            names := names + [e.name];
          }
      }
      i := i + 1;
    }
    assert entries[..i] == entries;
    return Files(names);
  }

  /** What the middle panel lists: the scanned names, or nothing when the scan fails. */
  function ShownFiles(listing: Listing): (r: seq<string>)
    ensures ScanListing(listing).ScanError? ==> r == []
    ensures forall n :: n in r ==>
      listing.Listing? && exists i :: 0 <= i < |listing.entries| && Contributes(listing.entries[i], n)
    ensures ScanListing(listing).Files? ==> forall n :: n in r <==>
      exists i :: 0 <= i < |listing.entries| && Contributes(listing.entries[i], n)
  {
    match ScanListing(listing)
    case Files(names) => names
    case ScanError => []
  }

  /** Scanning keeps listing order: two readable batches scan to the concatenation of their names. */
  lemma {:induction false} ScanAppend(a: seq<EntryRead>, b: seq<EntryRead>)
    requires ScanEntries(a).Files? && ScanEntries(b).Files?
    ensures ScanEntries(a + b) == Files(ScanEntries(a).names + ScanEntries(b).names)
    decreases |b|
  {
    if b == [] {
      assert a + b == a;
      assert ScanEntries(a).names + [] == ScanEntries(a).names;
    } else {
      var b' := b[..|b| - 1];
      assert (a + b)[..|a + b| - 1] == a + b';
      assert (a + b)[|a + b| - 1] == b[|b| - 1];
      assert ScanEntries(b').Files? by {
        assert forall i :: 0 <= i < |b'| ==> b'[i] == b[i];
      }
      ScanAppend(a, b');
    }
  }

  /** "a.txt" is kept; "b.log", "c.TXT" and a directory named "d.txt" are not. */
  lemma ScanExample()
    ensures ScanEntries([
      Read(Entry("a.txt", true, Some("txt"))),
      Read(Entry("b.log", true, Some("log"))),
      Read(Entry("c.TXT", true, Some("TXT"))),
      Read(Entry("d.txt", false, Some("txt")))
    ]) == Files(["a.txt"])
  {
    var es := [
      Read(Entry("a.txt", true, Some("txt"))),
      Read(Entry("b.log", true, Some("log"))),
      Read(Entry("c.TXT", true, Some("TXT"))),
      Read(Entry("d.txt", false, Some("txt")))
    ];
    assert "TXT" != "txt" by { assert "TXT"[0] != "txt"[0]; }
    assert "log" != "txt" by { assert "log"[0] != "txt"[0]; }
    assert es[..1][..0] == [];
    assert ScanEntries(es[..1]) == Files(["a.txt"]);
    assert es[..2][..1] == es[..1];
    assert ScanEntries(es[..2]) == Files(["a.txt"]);
    assert es[..3][..2] == es[..2];
    assert ScanEntries(es[..3]) == Files(["a.txt"]);
    assert es[..4][..3] == es[..3];
    assert ScanEntries(es[..4]) == Files(["a.txt"]);
    assert es[..4] == es;
  }
}
