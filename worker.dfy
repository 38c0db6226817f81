/**
 * The offline thumbnail job (thumbnail_worker.py): select the rows that have
 * no thumbnail, derive each thumbnail's blob name from the original's URL,
 * and store the thumbnail's URL row by row, committing each success and
 * rolling back each failure.
 *
 * The job's storage and imaging work (download, resize, JPEG encoding,
 * upload) is abstracted to one success flag per image (`imagingSucceeds`),
 * the commit of the row's update to another (`commitSucceeds`), and the
 * uploaded thumbnail's URL to a function of its blob name (`thumbnailUrlOf`).
 */
module ThumbnailWorker {
  import opened Common
  import Strings
  import opened Server

  /** `WHERE thumbnailurl IS NULL OR thumbnailurl = ''`. */
  predicate IsPending(img: Image) {
    img.thumbnailUrl == None || img.thumbnailUrl == Some("")
  }

  /** The rows the job selects, in table order. */
  function PendingImages(images: seq<Image>): (r: seq<Image>)
    ensures forall x :: x in r <==> x in images && IsPending(x)
    ensures DistinctIds(images) ==> DistinctIds(r)
  {
    var keep := (img: Image) => IsPending(img);
    var r := Filter(images, keep);
    assert forall x :: x in r <==> x in multiset(r);
    if DistinctIds(images) then FilterKeepsDistinct(images, keep); r else r
  }

  /** `original_url.split('/')[-1]`: the original blob's name, the URL's last path segment. */
  function OriginalFilename(url: string): (r: string)
    ensures '/' !in r
    ensures |r| <= |url| && r == url[|url| - |r|..]
    ensures '/' in url ==> url[|url| - |r| - 1] == '/'
    ensures '/' !in url ==> r == url
  {
    Strings.AfterLast(url, '/')
  }

  /** `f"thumb_{original_filename.split('.')[0]}.jpg"`. */
  function ThumbnailFilename(originalFilename: string): string {
    "thumb_" + Strings.BeforeFirst(originalFilename, '.') + ".jpg"
  }

  /**
   * A thumbnail name is "thumb_", then the longest start of the original's
   * name with no '.' in it (the whole name when it has none), then ".jpg";
   * so the text after its last '.' is always "jpg".
   */
  lemma ThumbnailFilenameShape(originalFilename: string)
    ensures var r := ThumbnailFilename(originalFilename);
      && |r| >= 10 && r[..6] == "thumb_" && r[|r| - 4..] == ".jpg"
      && |r| - 10 <= |originalFilename| && r[6..|r| - 4] == originalFilename[..|r| - 10]
      && '.' !in r[6..|r| - 4]
      && ('.' in originalFilename ==> originalFilename[|r| - 10] == '.')
      && Strings.BeforeFirst(r[6..], '.') == Strings.BeforeFirst(originalFilename, '.')
      && Strings.AfterLast(r, '.') == "jpg"
  {
    var stem := Strings.BeforeFirst(originalFilename, '.');
    var prefix: string := "thumb_";
    var ext: string := "jpg";
    var r := ThumbnailFilename(originalFilename);
    assert r == prefix + (stem + ['.'] + ext);
    assert r[..6] == prefix;
    assert r[6..] == stem + ['.'] + ext;
    assert r[6..|r| - 4] == stem;
    AfterLastOfSplitAssoc(prefix, stem, ext);
    Strings.BeforeFirstOfSplit(stem, '.', ext);
  }

  /** Helper: the text after the last '.' of `prefix + stem + "." + ext` is `ext` when `ext` has no '.'. */
  lemma AfterLastOfSplitAssoc(prefix: string, stem: string, ext: string)
    requires '.' !in ext
    ensures Strings.AfterLast(prefix + (stem + ['.'] + ext), '.') == ext
  {
    assert prefix + (stem + ['.'] + ext) == (prefix + stem) + ['.'] + ext;
    Strings.AfterLastOfSplit(prefix + stem, '.', ext);
  }

  /**
   * The names the upload route gives its blobs come back intact from their
   * URLs: for a blob "<uuid>.<ext>" stored at "<base>/<uuid>.<ext>", the job
   * reads the blob name back and names the thumbnail "thumb_<uuid>.jpg".
   */
  lemma UploadedBlobRoundTrip(base: string, uuid: string, sanitized: string)
    requires '.' !in uuid && '/' !in uuid && '.' in sanitized && '/' !in sanitized
    ensures var name := BlobName(uuid, sanitized).value;
      && OriginalFilename(base + "/" + name) == name
      && ThumbnailFilename(name) == "thumb_" + uuid + ".jpg"
  {
    BlobNameParts(uuid, sanitized);
    var ext := Strings.Lower(Strings.AfterLast(sanitized, '.'));
    var name := BlobName(uuid, sanitized).value;
    assert name == uuid + "." + ext;
    assert '/' !in Strings.AfterLast(sanitized, '.');
    Strings.LowerKeepsAbsent(Strings.AfterLast(sanitized, '.'), '/');
    assert '/' !in name;
    assert base + "/" + name == base + ['/'] + name;
    Strings.AfterLastOfSplit(base, '/', name);
  }

  /** Rows created by the upload route have thumbnailURL = originalURL, so the job skips them unless the URL is empty. */
  lemma UploadedRowsArePendingOnlyIfUrlEmpty(t: Tables, caption: string, owner: nat, url: string)
    ensures var row := Apply(t, InsertImage(caption, owner, url, url)).images[|t.images|];
      IsPending(row) <==> url == ""
  {
  }

  /** All the work for one row succeeds: it has an original URL, and imaging and commit work. */
  predicate Succeeds(img: Image, imagingSucceeds: nat -> bool, commitSucceeds: nat -> bool) {
    img.originalUrl.Some? && imagingSucceeds(img.imageId) && commitSucceeds(img.imageId)
  }

  /** The URL the job stores for a row whose work succeeds. */
  function ThumbnailUrlFor(img: Image, thumbnailUrlOf: string -> string): string
    requires img.originalUrl.Some?
  {
    thumbnailUrlOf(ThumbnailFilename(OriginalFilename(img.originalUrl.value)))
  }

  /** A row as the job leaves it: a pending row whose work succeeds gets its thumbnail URL, any other is as it was. */
  function AfterJob(img: Image, imagingSucceeds: nat -> bool, commitSucceeds: nat -> bool,
                    thumbnailUrlOf: string -> string): Image
  {
    if IsPending(img) && Succeeds(img, imagingSucceeds, commitSucceeds) then
      img.(thumbnailUrl := Some(ThumbnailUrlFor(img, thumbnailUrlOf)))
    else img
  }

  /** How many rows of `s` succeed. */
  function CountSucceeded(s: seq<Image>, imagingSucceeds: nat -> bool, commitSucceeds: nat -> bool): nat {
    if s == [] then 0
    else CountSucceeded(s[..|s| - 1], imagingSucceeds, commitSucceeds)
         + (if Succeeds(s[|s| - 1], imagingSucceeds, commitSucceeds) then 1 else 0)
  }

  /** The count is at most the number of rows, and reaches it exactly when every row succeeds. */
  lemma {:induction false} CountSucceededBounds(s: seq<Image>, imagingSucceeds: nat -> bool, commitSucceeds: nat -> bool)
    ensures CountSucceeded(s, imagingSucceeds, commitSucceeds) <= |s|
    ensures CountSucceeded(s, imagingSucceeds, commitSucceeds) == |s| <==>
      forall k :: 0 <= k < |s| ==> Succeeds(s[k], imagingSucceeds, commitSucceeds)
  {
    if s != [] {
      var init := s[..|s| - 1];
      CountSucceededBounds(init, imagingSucceeds, commitSucceeds);
      assert forall k :: 0 <= k < |init| ==> init[k] == s[k];
    }
  }

  /** The keys of the rows in `s`. */
  function Ids(s: seq<Image>): set<nat> {
    if s == [] then {} else Ids(s[..|s| - 1]) + {s[|s| - 1].imageId}
  }

  /** A key is in `Ids(s)` exactly when some row of `s` has it. */
  lemma {:induction false} IdsMembership(s: seq<Image>, id: nat)
    ensures id in Ids(s) <==> exists k :: 0 <= k < |s| && s[k].imageId == id
  {
    if s != [] {
      var init := s[..|s| - 1];
      IdsMembership(init, id);
      assert forall k :: 0 <= k < |init| ==> init[k] == s[k];
    }
  }

  /**
   * The rows `now` are the rows `before` with the job applied to those whose
   * key is in `done` and to no other.
   */
  ghost predicate JobAppliedTo(before: seq<Image>, now: seq<Image>, done: set<nat>,
                               imagingSucceeds: nat -> bool, commitSucceeds: nat -> bool,
                               thumbnailUrlOf: string -> string)
  {
    && |now| == |before|
    && forall j :: 0 <= j < |before| ==>
         now[j] == if before[j].imageId in done
                   then AfterJob(before[j], imagingSucceeds, commitSucceeds, thumbnailUrlOf)
                   else before[j]
  }

  /** The job touches only the images table: the users and both key sequences are as they were. */
  predicate SameUsersAndKeys(t: Tables, t': Tables) {
    t'.users == t.users && t'.nextUserId == t.nextUserId && t'.nextImageId == t.nextImageId
  }

  /**
   * `generate_thumbnails`: the job's run over the database. It returns the
   * number of thumbnails stored, which is the number of pending rows whose
   * work succeeded. Each pending row whose work succeeded now holds its
   * thumbnail's URL; every other row, and everything else, is unchanged.
   */
  method GenerateThumbnails(db: Database, imagingSucceeds: nat -> bool, commitSucceeds: nat -> bool,
                            thumbnailUrlOf: string -> string)
    returns (processedCount: nat)
    requires db.Valid() && db.staged == None
    modifies db
    ensures db.Valid() && db.staged == None
    ensures processedCount == CountSucceeded(PendingImages(old(db.tables.images)), imagingSucceeds, commitSucceeds)
    ensures processedCount <= |PendingImages(old(db.tables.images))|
    ensures SameUsersAndKeys(old(db.tables), db.tables)
    ensures |db.tables.images| == |old(db.tables.images)|
    ensures forall j :: 0 <= j < |db.tables.images| ==>
      db.tables.images[j] == AfterJob(old(db.tables.images)[j], imagingSucceeds, commitSucceeds, thumbnailUrlOf)
  {
    ghost var before := db.tables;
    AscendingIsDistinct(before.images);
    var pending := PendingImages(db.tables.images);
    processedCount := 0;
    var i := 0;
    while i < |pending|
      invariant 0 <= i <= |pending|
      invariant db.Valid() && db.staged == None
      invariant SameUsersAndKeys(before, db.tables)
      invariant processedCount == CountSucceeded(pending[..i], imagingSucceeds, commitSucceeds)
      invariant JobAppliedTo(before.images, db.tables.images, Ids(pending[..i]),
                             imagingSucceeds, commitSucceeds, thumbnailUrlOf)
    {
      var stored := ProcessRow(db, before, pending, i, imagingSucceeds, commitSucceeds, thumbnailUrlOf);
      if stored {
        processedCount := processedCount + 1;
      }
      i := i + 1;
    }
    assert pending[..i] == pending;
    CountSucceededBounds(pending, imagingSucceeds, commitSucceeds);
    JobAppliedToAllPending(before.images, db.tables.images, Ids(pending[..i]), imagingSucceeds, commitSucceeds, thumbnailUrlOf);
  }

  /** Once every pending row's key has been seen, every row is as the job leaves it. */
  lemma JobAppliedToAllPending(before: seq<Image>, now: seq<Image>, done: set<nat>,
                               imagingSucceeds: nat -> bool, commitSucceeds: nat -> bool, thumbnailUrlOf: string -> string)
    requires DistinctIds(before) && done == Ids(PendingImages(before))
    requires JobAppliedTo(before, now, done, imagingSucceeds, commitSucceeds, thumbnailUrlOf)
    ensures |now| == |before|
    ensures forall j :: 0 <= j < |now| ==> now[j] == AfterJob(before[j], imagingSucceeds, commitSucceeds, thumbnailUrlOf)
  {
    PendingIdsArePending(before);
  }

  /** Extending the prefix of `s` by the row at index `i` adds its new key and, if it succeeds, one to the count. */
  lemma PrefixStep(s: seq<Image>, i: nat, imagingSucceeds: nat -> bool, commitSucceeds: nat -> bool)
    requires DistinctIds(s) && i < |s|
    ensures s[i].imageId !in Ids(s[..i])
    ensures Ids(s[..i + 1]) == Ids(s[..i]) + {s[i].imageId}
    ensures CountSucceeded(s[..i + 1], imagingSucceeds, commitSucceeds)
            == CountSucceeded(s[..i], imagingSucceeds, commitSucceeds) + (if Succeeds(s[i], imagingSucceeds, commitSucceeds) then 1 else 0)
  {
    SnocUnfold(s[..i], s[i], imagingSucceeds, commitSucceeds);
    assert s[..i + 1] == s[..i] + [s[i]];
    KeyNotSeenBefore(s, i);
  }

  /** The `i`-th selected row is a pending row of the table, and the prefix facts of `PrefixStep` hold for it. */
  lemma PendingStep(images: seq<Image>, i: nat, imagingSucceeds: nat -> bool, commitSucceeds: nat -> bool)
    requires DistinctIds(images) && i < |PendingImages(images)|
    ensures var s := PendingImages(images);
      && s[i] in images && IsPending(s[i])
      && s[i].imageId !in Ids(s[..i])
      && Ids(s[..i + 1]) == Ids(s[..i]) + {s[i].imageId}
      && CountSucceeded(s[..i + 1], imagingSucceeds, commitSucceeds)
         == CountSucceeded(s[..i], imagingSucceeds, commitSucceeds) + (if Succeeds(s[i], imagingSucceeds, commitSucceeds) then 1 else 0)
  {
    var s := PendingImages(images);
    assert s[i] in s;
    PrefixStep(s, i, imagingSucceeds, commitSucceeds);
  }

  /** With unique keys, the key at index `i` is not among the keys before it. */
  lemma KeyNotSeenBefore(s: seq<Image>, i: nat)
    requires DistinctIds(s) && i < |s|
    ensures s[i].imageId !in Ids(s[..i])
  {
    IdsMembership(s[..i], s[i].imageId);
    assert forall k :: 0 <= k < i ==> s[..i][k] == s[k];
  }

  /** Growing a prefix by one row adds its key and, if it succeeds, one to the count. */
  lemma SnocUnfold(s: seq<Image>, x: Image, imagingSucceeds: nat -> bool, commitSucceeds: nat -> bool)
    ensures Ids(s + [x]) == Ids(s) + {x.imageId}
    ensures CountSucceeded(s + [x], imagingSucceeds, commitSucceeds)
            == CountSucceeded(s, imagingSucceeds, commitSucceeds) + (if Succeeds(x, imagingSucceeds, commitSucceeds) then 1 else 0)
  {
    assert (s + [x])[..|s|] == s;
  }

  /** With unique keys, a row's key is among the selected rows' keys exactly when the row is pending. */
  lemma PendingIdsArePending(images: seq<Image>)
    requires DistinctIds(images)
    ensures forall j :: 0 <= j < |images| ==> (images[j].imageId in Ids(PendingImages(images)) <==> IsPending(images[j]))
  {
    var pending := PendingImages(images);
    forall j | 0 <= j < |images|
      ensures images[j].imageId in Ids(pending) <==> IsPending(images[j])
    {
      IdsMembership(pending, images[j].imageId);
      if IsPending(images[j]) {
        assert images[j] in pending;
        var k :| 0 <= k < |pending| && pending[k] == images[j];
      }
      if images[j].imageId in Ids(pending) {
        var k :| 0 <= k < |pending| && pending[k].imageId == images[j].imageId;
        assert pending[k] in images;
        var m :| 0 <= m < |images| && images[m] == pending[k];
        assert m == j;
      }
    }
  }

  /** A row whose work fails is left as it was, so adding its key keeps the rows as the job leaves them. */
  lemma JobAppliedSkip(before: seq<Image>, now: seq<Image>, done: set<nat>, row: Image,
                       imagingSucceeds: nat -> bool, commitSucceeds: nat -> bool, thumbnailUrlOf: string -> string)
    requires DistinctIds(before) && row in before && !Succeeds(row, imagingSucceeds, commitSucceeds)
    requires JobAppliedTo(before, now, done, imagingSucceeds, commitSucceeds, thumbnailUrlOf)
    ensures JobAppliedTo(before, now, done + {row.imageId}, imagingSucceeds, commitSucceeds, thumbnailUrlOf)
  {
    forall j | 0 <= j < |before| && before[j].imageId == row.imageId
      ensures before[j] == row
    {
      var k :| 0 <= k < |before| && before[k] == row;
      assert j == k;
    }
  }

  /**
   * Storing the thumbnail URL of a pending row whose work succeeds, on the
   * rows so far, gives the rows as the job leaves them with that row's key added.
   */
  lemma JobAppliedStore(before: seq<Image>, now: seq<Image>, done: set<nat>, row: Image,
                        imagingSucceeds: nat -> bool, commitSucceeds: nat -> bool, thumbnailUrlOf: string -> string)
    requires DistinctIds(before) && row in before && row.imageId !in done
    requires IsPending(row) && Succeeds(row, imagingSucceeds, commitSucceeds)
    requires JobAppliedTo(before, now, done, imagingSucceeds, commitSucceeds, thumbnailUrlOf)
    ensures JobAppliedTo(before, WithThumbnail(now, row.imageId, ThumbnailUrlFor(row, thumbnailUrlOf)),
                         done + {row.imageId}, imagingSucceeds, commitSucceeds, thumbnailUrlOf)
  {
    var url := ThumbnailUrlFor(row, thumbnailUrlOf);
    var next := WithThumbnail(now, row.imageId, url);
    forall j | 0 <= j < |before|
      ensures next[j] == if before[j].imageId in done + {row.imageId}
                         then AfterJob(before[j], imagingSucceeds, commitSucceeds, thumbnailUrlOf)
                         else before[j]
    {
      if before[j].imageId == row.imageId {
        var k :| 0 <= k < |before| && before[k] == row;
        assert j == k;
        assert now[j] == row;
      } else {
        assert now[j].imageId == before[j].imageId by {
          if before[j].imageId in done {
            assert now[j] == AfterJob(before[j], imagingSucceeds, commitSucceeds, thumbnailUrlOf);
          }
        }
      }
    }
  }

  /**
   * One iteration of the job's loop, on the `i`-th selected row: a row whose
   * original URL is missing or whose imaging fails is rolled back; otherwise
   * its thumbnail URL is staged and committed, and a failed commit is rolled
   * back. It reports whether the thumbnail was stored (the count goes up by
   * one exactly then), and either way the rows are then as the job leaves
   * them for every selected row up to and including this one.
   */
  method ProcessRow(db: Database, ghost before: Tables, pending: seq<Image>, i: nat,
                    imagingSucceeds: nat -> bool, commitSucceeds: nat -> bool,
                    thumbnailUrlOf: string -> string)
    returns (stored: bool)
    requires db.Valid() && db.staged == None
    requires i < |pending| && pending == PendingImages(before.images)
    requires DistinctIds(before.images)
    requires JobAppliedTo(before.images, db.tables.images, Ids(pending[..i]), imagingSucceeds, commitSucceeds, thumbnailUrlOf)
    modifies db
    ensures stored == Succeeds(pending[i], imagingSucceeds, commitSucceeds)
    ensures CountSucceeded(pending[..i + 1], imagingSucceeds, commitSucceeds)
            == CountSucceeded(pending[..i], imagingSucceeds, commitSucceeds) + (if stored then 1 else 0)
    ensures db.Valid() && db.staged == None
    ensures SameUsersAndKeys(old(db.tables), db.tables)
    ensures JobAppliedTo(before.images, db.tables.images, Ids(pending[..i + 1]),
                         imagingSucceeds, commitSucceeds, thumbnailUrlOf)
  {
    var row := pending[i];
    PendingStep(before.images, i, imagingSucceeds, commitSucceeds);
    ghost var done := Ids(pending[..i]);
    ghost var current := db.tables;
    stored := false;
    if row.originalUrl.Some? && imagingSucceeds(row.imageId) {
      var filename := OriginalFilename(row.originalUrl.value);
      var url := thumbnailUrlOf(ThumbnailFilename(filename));
      db.Stage(SetThumbnail(row.imageId, url));
      stored := db.Commit(!commitSucceeds(row.imageId));
    }
    if stored {
      assert db.tables.images == WithThumbnail(current.images, row.imageId, ThumbnailUrlFor(row, thumbnailUrlOf));
      JobAppliedStore(before.images, current.images, done, row, imagingSucceeds, commitSucceeds, thumbnailUrlOf);
    } else {
      db.Rollback();
      JobAppliedSkip(before.images, db.tables.images, done, row, imagingSucceeds, commitSucceeds, thumbnailUrlOf);
    }
  }
}
