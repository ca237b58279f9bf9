/**
 * `sync` of scripts/sync-machines.js (lines 58-107): for each difficulty
 * folder in turn, list it, keep the Markdown write-ups, download and parse
 * each one and push its record; then sort all records newest first.
 *
 * The network is an oracle: `listings` gives, for each endpoint, either the
 * folder's entries or a failure, and each entry carries the outcome of
 * downloading it. A failure of either kind is the exception the folder's
 * `try` block catches: the rest of that folder is skipped, and the records
 * already pushed stay.
 */
module Sync {
  import opened JsStrings
  import opened Frontmatter
  import opened Machines
  import opened DateSort

  /** The folders, in the order they are visited. */
  const Folders: seq<string> := ["Easy", "Medium", "Hard", "Insane"]
  /** The repository directory that holds the folders. */
  const BasePath: string := "Tought%20Process"

  /** What downloading a file's `download_url` gave: its text, or a rejection. */
  datatype Download = FetchFailed | Fetched(text: string)

  /** One item of a folder listing: its `name` and what downloading it gives. */
  datatype Entry = Entry(name: string, download: Download)

  /** The answer to a contents request: the folder's items, or an error. */
  datatype Listing = ListingFailed | Listing(entries: seq<Entry>)

  /**
   * The contents endpoint of a folder, `${BASE_PATH}/${folder}`: the base
   * path and a slash, then the folder's name.
   */
  function Endpoint(folder: string): (r: string)
    ensures |r| == |BasePath| + 1 + |folder|
    ensures r[..|BasePath| + 1] == BasePath + "/"
    ensures r[|BasePath| + 1..] == folder
  {
    BasePath + "/" + folder
  }

  /** Different folders are listed from different endpoints. */
  lemma EndpointsDistinct(f: string, g: string)
    ensures Endpoint(f) == Endpoint(g) <==> f == g
  {
    if Endpoint(f) == Endpoint(g) {
      assert f == Endpoint(f)[|BasePath| + 1..];
    }
  }

  /** A Markdown write-up: a ".md" file other than the folder's README.md. */
  predicate IsWriteUp(name: string): (b: bool)
    ensures b ==> |name| >= 3 && name == name[..|name| - 3] + ".md" && name[..|name| - 3] != "README"
  {
    EndsWith(name, ".md") && name != "README.md"
  }

  /** A name ending in ".md" is a write-up unless its stem is "README". */
  lemma WriteUpOfStem(stem: string)
    ensures IsWriteUp(stem + ".md") <==> stem != "README"
  {
    var name := stem + ".md";
    assert name[|name| - 3..] == ".md";
    assert name[..|name| - 3] == stem;
  }

  /** `files.filter(...)`: the write-ups of a listing, in listing order. */
  function WriteUps(entries: seq<Entry>): (r: seq<Entry>)
    ensures |r| <= |entries|
    ensures forall e :: e in r <==> e in entries && IsWriteUp(e.name)
  {
    if entries == [] then []
    else (if IsWriteUp(entries[0].name) then [entries[0]] else []) + WriteUps(entries[1..])
  }

  /** Filtering a concatenation filters each part. */
  lemma {:induction false} WriteUpsAppend(s: seq<Entry>, t: seq<Entry>)
    ensures WriteUps(s + t) == WriteUps(s) + WriteUps(t)
  {
    if s == [] {
      assert s + t == t;
    } else {
      assert (s + t)[0] == s[0];
      assert (s + t)[1..] == s[1..] + t;
      WriteUpsAppend(s[1..], t);
    }
  }

  /** A listing of write-ups only is kept whole, in order. */
  lemma {:induction false} WriteUpsKeepsAll(entries: seq<Entry>)
    requires forall i :: 0 <= i < |entries| ==> IsWriteUp(entries[i].name)
    ensures WriteUps(entries) == entries
  {
    if entries != [] {
      WriteUpsKeepsAll(entries[1..]);
      assert entries == [entries[0]] + entries[1..];
    }
  }

  /**
   * The write-ups read before the first failed download: the longest
   * prefix of `files` whose downloads all succeed.
   */
  function ReadUntilFailure(files: seq<Entry>): (r: seq<Entry>)
    ensures |r| <= |files|
    ensures forall i :: 0 <= i < |r| ==> r[i] == files[i] && r[i].download.Fetched?
    ensures |r| < |files| ==> files[|r|].download == FetchFailed
  {
    if files == [] || files[0].download.FetchFailed? then []
    else [files[0]] + ReadUntilFailure(files[1..])
  }

  /** Without a failed download, every write-up is read. */
  lemma ReadAll(files: seq<Entry>)
    requires forall i :: 0 <= i < |files| ==> files[i].download.Fetched?
    ensures ReadUntilFailure(files) == files
  {
  }

  /** A failed download ends the reading: nothing from it on is read. */
  lemma {:induction false} ReadStopsAtFailure(files: seq<Entry>, i: nat)
    requires i < |files| && files[i].download == FetchFailed
    ensures ReadUntilFailure(files) == ReadUntilFailure(files[..i])
  {
    if i > 0 && files[0].download.Fetched? {
      ReadStopsAtFailure(files[1..], i - 1);
      assert files[1..][..i - 1] == files[..i][1..];
    }
  }

  /** A write-up as downloaded: its folder, its file name and its text. */
  datatype WriteUp = WriteUp(folder: string, name: string, text: string)

  /** The downloaded write-ups of `folder`, one per file read, in order. */
  function Downloaded(folder: string, read: seq<Entry>): (r: seq<WriteUp>)
    requires forall i :: 0 <= i < |read| ==> read[i].download.Fetched?
    ensures |r| == |read|
  {
    seq(|read|, i requires 0 <= i < |read| => WriteUp(folder, read[i].name, read[i].download.text))
  }

  /** Reading one more file adds its write-up at the end. */
  lemma DownloadedStep(folder: string, files: seq<Entry>, i: nat)
    requires i < |files|
    requires forall j :: 0 <= j <= i ==> files[j].download.Fetched?
    ensures Downloaded(folder, files[..i + 1])
            == Downloaded(folder, files[..i]) + [WriteUp(folder, files[i].name, files[i].download.text)]
  {
  }

  /**
   * What one folder's `try` block downloads: the write-ups read before the
   * first failed download, all from that folder and all Markdown write-ups;
   * nothing when the listing itself fails.
   */
  function FolderWriteUps(folder: string, listing: Listing): (r: seq<WriteUp>)
    ensures listing.ListingFailed? ==> r == []
    ensures forall i :: 0 <= i < |r| ==> r[i].folder == folder && IsWriteUp(r[i].name)
  {
    match listing
    case ListingFailed => []
    case Listing(entries) =>
      var files := WriteUps(entries);
      var read := ReadUntilFailure(files);
      assert forall i :: 0 <= i < |read| ==> read[i] in files;
      Downloaded(folder, read)
  }

  /** When every download succeeds, each write-up of the listing is downloaded, in order. */
  lemma FolderComplete(folder: string, entries: seq<Entry>)
    requires forall i :: 0 <= i < |WriteUps(entries)| ==> WriteUps(entries)[i].download.Fetched?
    ensures FolderWriteUps(folder, Listing(entries)) == Downloaded(folder, WriteUps(entries))
  {
    ReadAll(WriteUps(entries));
  }

  /**
   * A failed download ends the folder: the write-ups before it are kept,
   * and none after it is read.
   */
  lemma FolderStopsAtFailure(folder: string, entries: seq<Entry>, i: nat)
    requires i < |WriteUps(entries)| && WriteUps(entries)[i].download == FetchFailed
    requires forall j :: 0 <= j < i ==> WriteUps(entries)[j].download.Fetched?
    ensures FolderWriteUps(folder, Listing(entries)) == Downloaded(folder, WriteUps(entries)[..i])
  {
    var files := WriteUps(entries);
    ReadStopsAtFailure(files, i);
    ReadAll(files[..i]);
  }

  /** The record built from a downloaded write-up. */
  function Build(w: WriteUp): (m: Machine)
    ensures m.folder == w.folder
  {
    Record(w.folder, w.name, Parse(w.text))
  }

  /** The records pushed for a run of downloaded write-ups: one each, in order. */
  function Records(ws: seq<WriteUp>): (r: seq<Machine>)
    ensures |r| == |ws|
  {
    if ws == [] then []
    else Records(ws[..|ws| - 1]) + [Build(ws[|ws| - 1])]
  }

  /** Reading one more file adds the record built from it at the end. */
  lemma RecordsStep(folder: string, files: seq<Entry>, i: nat)
    requires i < |files|
    requires forall j :: 0 <= j <= i ==> files[j].download.Fetched?
    ensures Records(Downloaded(folder, files[..i + 1]))
            == Records(Downloaded(folder, files[..i])) + [Build(WriteUp(folder, files[i].name, files[i].download.text))]
  {
    DownloadedStep(folder, files, i);
    var ws := Downloaded(folder, files[..i + 1]);
    assert ws[..|ws| - 1] == Downloaded(folder, files[..i]);
  }

  /** Record `i` is the one built from write-up `i`. */
  lemma {:induction false} RecordsAt(ws: seq<WriteUp>, i: nat)
    requires i < |ws|
    ensures Records(ws)[i] == Build(ws[i])
  {
    if i < |ws| - 1 {
      RecordsAt(ws[..|ws| - 1], i);
    }
  }

  /** What one folder contributes to `allMachines`: a record per write-up it downloads. */
  function FolderRecords(folder: string, listing: Listing): (r: seq<Machine>)
    ensures |r| == |FolderWriteUps(folder, listing)|
    ensures listing.ListingFailed? ==> r == []
  {
    Records(FolderWriteUps(folder, listing))
  }

  /**
   * Record `i` of a folder is built from its `i`-th downloaded write-up, with
   * that write-up's file name and parsed header, and names the folder.
   */
  lemma FolderRecordAt(folder: string, listing: Listing, i: nat)
    requires i < |FolderWriteUps(folder, listing)|
    ensures var w := FolderWriteUps(folder, listing)[i];
            && FolderRecords(folder, listing)[i] == Record(folder, w.name, Parse(w.text))
            && FolderRecords(folder, listing)[i].folder == folder
            && IsWriteUp(w.name)
  {
    RecordsAt(FolderWriteUps(folder, listing), i);
  }

  /** The records of the first `k` folders, in folder order. */
  function CollectUpTo(listings: string -> Listing, k: nat): (r: seq<Machine>)
    requires k <= |Folders|
  {
    if k == 0 then []
    else CollectUpTo(listings, k - 1) + FolderRecords(Folders[k - 1], listings(Endpoint(Folders[k - 1])))
  }

  /**
   * `allMachines` before the sort. When no folder can be listed, nothing is
   * collected (and the script goes on to write an empty list).
   */
  function Collected(listings: string -> Listing): (r: seq<Machine>)
    ensures (forall f :: f in Folders ==> listings(Endpoint(f)).ListingFailed?) ==> r == []
  {
    NothingListed(listings);
    CollectUpTo(listings, |Folders|)
  }

  /** Folders that cannot be listed contribute nothing. */
  lemma {:induction false} NothingListedUpTo(listings: string -> Listing, k: nat)
    requires k <= |Folders|
    requires forall j :: 0 <= j < k ==> listings(Endpoint(Folders[j])).ListingFailed?
    ensures CollectUpTo(listings, k) == []
  {
    if k > 0 {
      NothingListedUpTo(listings, k - 1);
    }
  }

  /** When no folder can be listed, the folder loop collects nothing. */
  lemma NothingListed(listings: string -> Listing)
    ensures (forall f :: f in Folders ==> listings(Endpoint(f)).ListingFailed?) ==> CollectUpTo(listings, |Folders|) == []
  {
    if forall f :: f in Folders ==> listings(Endpoint(f)).ListingFailed? {
      forall j | 0 <= j < |Folders|
        ensures listings(Endpoint(Folders[j])).ListingFailed?
      {
        assert Folders[j] in Folders;
      }
      NothingListedUpTo(listings, |Folders|);
    }
  }

  /** The folder names, one by one. */
  lemma FolderNames()
    ensures Folders[0] == "Easy" && Folders[1] == "Medium" && Folders[2] == "Hard" && Folders[3] == "Insane"
  {
  }

  /** The records come folder by folder: all of Easy, then Medium, Hard and Insane. */
  lemma CollectedInFolderOrder(listings: string -> Listing)
    ensures Collected(listings)
            == FolderRecords("Easy", listings(Endpoint("Easy")))
             + FolderRecords("Medium", listings(Endpoint("Medium")))
             + FolderRecords("Hard", listings(Endpoint("Hard")))
             + FolderRecords("Insane", listings(Endpoint("Insane")))
  {
    FolderNames();
    var easy := FolderRecords("Easy", listings(Endpoint("Easy")));
    var medium := FolderRecords("Medium", listings(Endpoint("Medium")));
    var hard := FolderRecords("Hard", listings(Endpoint("Hard")));
    assert CollectUpTo(listings, 1) == easy;
    assert CollectUpTo(listings, 2) == easy + medium;
    assert CollectUpTo(listings, 3) == easy + medium + hard;
  }

  /** The sort key: the time of the record's `pwnedDate`. */
  function ByDate(time: string -> int): (key: Machine -> int)
    ensures forall m :: key(m) == time(m.pwnedDate)
  {
    (m: Machine) => time(m.pwnedDate)
  }

  /**
   * The body of the `try` block for one folder: list it, keep the
   * write-ups, then download, parse and build a record for each in turn
   * until a download fails.
   */
  method SyncFolder(folder: string, listing: Listing) returns (records: seq<Machine>)
    ensures records == FolderRecords(folder, listing)
  {
    records := [];
    if listing.ListingFailed? {
      return;
    }
    var files := WriteUps(listing.entries);
    var i := 0;
    while i < |files| && files[i].download.Fetched?
      invariant i <= |files|
      invariant forall j :: 0 <= j < i ==> files[j].download.Fetched?
      invariant records == Records(Downloaded(folder, files[..i]))
    {
      var file := files[i];
      var fm := ParseFrontmatter(file.download.text);
      RecordsStep(folder, files, i);
      records := records + [Record(folder, file.name, fm)];
      i := i + 1;
    }
    if i < |files| {
      FolderStopsAtFailure(folder, listing.entries, i);
    } else {
      assert files[..i] == files;
      FolderComplete(folder, listing.entries);
    }
  }

  /**
   * The folder loop of `sync`: each folder in turn, its records appended to
   * `allMachines`.
   */
  method Collect(listings: string -> Listing) returns (all: seq<Machine>)
    ensures all == Collected(listings)
  {
    all := [];
    var k := 0;
    while k < |Folders|
      invariant k <= |Folders|
      invariant all == CollectUpTo(listings, k)
    {
      var folder := Folders[k];
      var records := SyncFolder(folder, listings(Endpoint(folder)));
      all := all + records;
      k := k + 1;
    }
  }

  /**
   * `sync`: the folder loop, then the sort. `time` stands for
   * `new Date(pwnedDate).getTime()`.
   */
  method Sync(listings: string -> Listing, time: string -> int) returns (machines: seq<Machine>)
    ensures machines == SortDesc(Collected(listings), ByDate(time))
    ensures forall i, j :: 0 <= i < j < |machines| ==> time(machines[i].pwnedDate) >= time(machines[j].pwnedDate)
    ensures multiset(machines) == multiset(Collected(listings))
  {
    var all := Collect(listings);
    machines := SortByDate(all, time);
    SortDescIsStableSort(all, ByDate(time));
  }

  /**
   * `allMachines.sort(...)`: the collected records, placed in an array and
   * sorted there in place, newest first.
   */
  method SortByDate(all: seq<Machine>, time: string -> int) returns (machines: seq<Machine>)
    ensures machines == SortDesc(all, ByDate(time))
  {
    var a := new Machine[|all|](j requires 0 <= j < |all| => all[j]);
    assert a[..] == all;
    SortNewestFirst(a, ByDate(time));
    machines := a[..];
  }
}
