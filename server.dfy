/**
 * The server side of the image-sharing application (app.py): the extension
 * check, the register / login / upload routes over an abstract database, and
 * the two image listings.
 *
 * The database has two tables, users by name and image metadata rows, plus
 * a session that holds at most one pending change until it is committed or
 * rolled back (`db.session.add`, `commit`, `rollback`). The foreign
 * libraries the routes call (password hashing, `secure_filename`, `uuid4`,
 * Blob Storage) are parameters: functions, values or success flags that the
 * caller supplies.
 */
module Server {
  import opened Common
  import Strings

  // ---------------------------------------------------------------------------
  // Records and tables
  // ---------------------------------------------------------------------------

  /** A row of the user table: the primary key and the stored password hash. */
  datatype User = User(userId: nat, hashedPassword: string)

  /** A row of the image-metadata table; the URL columns may be NULL. */
  datatype Image = Image(
    imageId: nat,
    caption: string,
    ownerUserId: nat,
    originalUrl: Option<string>,
    thumbnailUrl: Option<string>)

  /** The committed contents of the database; the `next…` fields are the key sequences. */
  datatype Tables = Tables(
    users: map<string, User>,
    images: seq<Image>,
    nextUserId: nat,
    nextImageId: nat)

  /** A change the session can hold before it is committed. */
  datatype Change =
    | InsertUser(username: string, hashedPassword: string)
    | InsertImage(caption: string, ownerUserId: nat, originalUrl: string, thumbnailUrl: string)
    | SetThumbnail(imageId: nat, url: string)

  /** Image keys increase along the table (rows are appended with fresh keys). */
  predicate IdsAscending(images: seq<Image>) {
    forall i, j :: 0 <= i < j < |images| ==> images[i].imageId < images[j].imageId
  }

  /** No two rows share a key. */
  predicate DistinctIds(images: seq<Image>) {
    forall i, j :: 0 <= i < |images| && 0 <= j < |images| && i != j ==> images[i].imageId != images[j].imageId
  }

  /** The integrity the database keeps: keys below their sequences, and unique. */
  predicate TablesValid(t: Tables) {
    && (forall name :: name in t.users ==> t.users[name].userId < t.nextUserId)
    && (forall a, b :: a in t.users && b in t.users && a != b ==> t.users[a].userId != t.users[b].userId)
    && IdsAscending(t.images)
    && (forall k :: 0 <= k < |t.images| ==> t.images[k].imageId < t.nextImageId)
  }

  /**
   * `UPDATE … SET thumbnailurl = url WHERE imageid = id`: no row is added,
   * removed, moved or re-keyed; rows with another key are untouched, and a
   * row with that key changes in its thumbnail column only.
   */
  function WithThumbnail(images: seq<Image>, id: nat, url: string): (r: seq<Image>)
    ensures |r| == |images|
    ensures forall k :: 0 <= k < |r| ==> r[k].imageId == images[k].imageId
    ensures forall k :: 0 <= k < |r| && images[k].imageId != id ==> r[k] == images[k]
    ensures forall k :: 0 <= k < |r| && images[k].imageId == id ==>
      && r[k].thumbnailUrl == Some(url)
      && r[k].caption == images[k].caption && r[k].ownerUserId == images[k].ownerUserId
      && r[k].originalUrl == images[k].originalUrl
  {
    seq(|images|, k requires 0 <= k < |images| =>
      if images[k].imageId == id then images[k].(thumbnailUrl := Some(url)) else images[k])
  }

  /** With unique keys the update changes at most one row. */
  lemma WithThumbnailChangesAtMostOne(images: seq<Image>, id: nat, url: string)
    requires DistinctIds(images)
    ensures forall j, k ::
      0 <= j < |images| && 0 <= k < |images| && j != k && WithThumbnail(images, id, url)[j] != images[j] ==>
        WithThumbnail(images, id, url)[k] == images[k]
  {
    var r := WithThumbnail(images, id, url);
    forall j, k | 0 <= j < |images| && 0 <= k < |images| && j != k && r[j] != images[j]
      ensures r[k] == images[k]
    {
      assert images[j].imageId == id;
      assert images[k].imageId != images[j].imageId;
    }
  }

  /** Committing `c` would break the unique constraint on user names. */
  predicate Violates(t: Tables, c: Change) {
    c.InsertUser? && c.username in t.users
  }

  /** The tables after `c` is committed; new rows take the next key of their sequence. */
  function Apply(t: Tables, c: Change): Tables
  {
    match c
    case InsertUser(name, hash) =>
      t.(users := t.users[name := User(t.nextUserId, hash)], nextUserId := t.nextUserId + 1)
    case InsertImage(caption, owner, original, thumbnail) =>
      t.(images := t.images + [Image(t.nextImageId, caption, owner, Some(original), Some(thumbnail))],
         nextImageId := t.nextImageId + 1)
    case SetThumbnail(id, url) =>
      t.(images := WithThumbnail(t.images, id, url))
  }

  /**
   * Each change touches one table: an inserted user takes the next user key
   * and the other users stay as they were; an inserted image row takes the
   * next image key and is appended after the existing rows, which stay as
   * they were; the thumbnail update keeps the users, both key sequences and
   * the number of rows.
   */
  lemma ApplyTouchesOneTable(t: Tables, c: Change)
    ensures var r := Apply(t, c);
      c.InsertUser? ==>
        && r.images == t.images && r.nextImageId == t.nextImageId
        && r.users.Keys == t.users.Keys + {c.username}
        && r.users[c.username] == User(t.nextUserId, c.hashedPassword)
        && (forall name :: name in t.users && name != c.username ==> r.users[name] == t.users[name])
        && r.nextUserId == t.nextUserId + 1
    ensures var r := Apply(t, c);
      c.InsertImage? ==>
        && r.users == t.users && r.nextUserId == t.nextUserId
        && |r.images| == |t.images| + 1 && r.images[..|t.images|] == t.images
        && r.images[|t.images|].imageId == t.nextImageId
        && r.nextImageId == t.nextImageId + 1
    ensures var r := Apply(t, c);
      c.SetThumbnail? ==>
        r.users == t.users && r.nextUserId == t.nextUserId && r.nextImageId == t.nextImageId
        && |r.images| == |t.images|
  {
  }

  /** Every commit the constraint admits keeps the tables valid. */
  lemma ApplyPreservesValid(t: Tables, c: Change)
    requires TablesValid(t) && !Violates(t, c)
    ensures TablesValid(Apply(t, c))
  {
    var t' := Apply(t, c);
    match c
    case InsertUser(name, hash) =>
      forall a, b | a in t'.users && b in t'.users && a != b
        ensures t'.users[a].userId != t'.users[b].userId
      {
        if a == name { assert t'.users[b] == t.users[b]; }
        else if b == name { assert t'.users[a] == t.users[a]; }
      }
    case InsertImage(_, _, _, _) =>
      assert forall k :: 0 <= k < |t.images| ==> t'.images[k] == t.images[k];
    case SetThumbnail(id, url) =>
      assert forall k :: 0 <= k < |t.images| ==> t'.images[k].imageId == t.images[k].imageId;
  }

  /** Inserting a user under a fresh name adds exactly that one user. */
  lemma {:induction false} InsertUserAddsOne(t: Tables, name: string, hash: string)
    requires name !in t.users
    ensures Apply(t, InsertUser(name, hash)).users.Keys == t.users.Keys + {name}
    ensures |Apply(t, InsertUser(name, hash)).users| == |t.users| + 1
  {
    var m := Apply(t, InsertUser(name, hash)).users;
    assert m.Keys == t.users.Keys + {name};
    assert |m.Keys| == |t.users.Keys| + 1;
  }

  /** The database: committed tables plus the session's pending change. */
  class Database {
    var tables: Tables
    var staged: Option<Change>

    ghost predicate Valid()
      reads this
    {
      TablesValid(tables)
    }

    /** An empty database with no pending change. */
    constructor ()
      ensures Valid()
      ensures tables == Tables(map[], [], 0, 0) && staged == None
    {
      tables := Tables(map[], [], 0, 0);
      staged := None;
    }

    /** `db.session.add(row)`: the change is pending, nothing is committed yet. */
    method Stage(c: Change)
      requires staged == None
      modifies this`staged
      ensures staged == Some(c)
    {
      staged := Some(c);
    }

    /**
     * `db.session.commit()`. It fails (raises) when the store reports an error
     * (`fails`) or the pending change breaks the unique user name; then
     * nothing is committed and the session keeps the change until rolled back.
     */
    method Commit(fails: bool) returns (ok: bool)
      requires Valid()
      modifies this
      ensures Valid()
      ensures ok <==> !fails && !(old(staged).Some? && Violates(old(tables), old(staged).value))
      ensures ok ==> staged == None
      ensures ok ==> tables == if old(staged).Some? then Apply(old(tables), old(staged).value) else old(tables)
      ensures !ok ==> tables == old(tables) && staged == old(staged)
    {
      if fails || (staged.Some? && Violates(tables, staged.value)) {
        return false;
      }
      if staged.Some? {
        ApplyPreservesValid(tables, staged.value);
        tables := Apply(tables, staged.value);
      }
      staged := None;
      return true;
    }

    /** `db.session.rollback()`: the pending change is dropped, the tables are untouched. */
    method Rollback()
      modifies this`staged
      ensures staged == None
    {
      staged := None;
    }
  }

  // ---------------------------------------------------------------------------
  // Extension check
  // ---------------------------------------------------------------------------

  const AllowedExtensions: set<string> := {"png", "jpg", "jpeg", "gif", "bmp", "webp"}

  /**
   * `allowed_file`: the name has a '.', and the text after its last '.',
   * lower-cased, is one of the allowed extensions.
   */
  function AllowedFile(filename: string): (r: bool)
    ensures r <==> exists i :: 0 <= i < |filename| && filename[i] == '.' && '.' !in filename[i + 1..]
                                 && Strings.Lower(filename[i + 1..]) in AllowedExtensions
  {
    var ext := Strings.AfterLast(filename, '.');
    if '.' in filename then
      var i := |filename| - |ext| - 1;
      assert filename[i + 1..] == ext;
      ExtensionIsUnique(filename);
      Strings.Lower(ext) in AllowedExtensions
    else
      false
  }

  /** The check ignores letter case: a name passes exactly when its lower-cased form does. */
  lemma AllowedFileIgnoresCase(filename: string)
    ensures AllowedFile(Strings.Lower(filename)) == AllowedFile(filename)
  {
    Strings.LowerKeepsAbsent(filename, '.');
    Strings.AfterLastOfLower(filename, '.');
    Strings.LowerIdempotent(Strings.AfterLast(filename, '.'));
  }

  /** The only '.' with no '.' after it is the one `AfterLast` splits at. */
  lemma ExtensionIsUnique(s: string)
    ensures forall i :: 0 <= i < |s| && s[i] == '.' && '.' !in s[i + 1..] ==>
      s[i + 1..] == Strings.AfterLast(s, '.')
  {
    forall i | 0 <= i < |s| && s[i] == '.' && '.' !in s[i + 1..]
      ensures s[i + 1..] == Strings.AfterLast(s, '.')
    {
      ExtensionAt(s, i);
    }
  }

  /** Helper: a '.' at `i` with none after it is where `AfterLast` splits. */
  lemma {:induction false} ExtensionAt(s: string, i: nat)
    requires i < |s| && s[i] == '.' && '.' !in s[i + 1..]
    ensures s[i + 1..] == Strings.AfterLast(s, '.')
  {
    var a, b := s[..i], s[i + 1..];
    assert s == a + ['.'] + b;
    Strings.AfterLastOfSplit(a, '.', b);
  }

  // ---------------------------------------------------------------------------
  // Register and login
  // ---------------------------------------------------------------------------

  datatype RegisterOutcome = Registered | UsernameTaken | RegisterFailed

  /**
   * POST /register. `username` and `password` are the form fields (None when
   * absent); `hash` stands for `generate_password_hash`. `queryFails` and
   * `commitFails` say whether the user lookup or the commit raises; any
   * exception, including a missing field, ends in a rollback.
   */
  method Register(db: Database, username: Option<string>, password: Option<string>,
                  hash: string -> string, queryFails: bool, commitFails: bool)
    returns (outcome: RegisterOutcome)
    requires db.Valid() && db.staged == None
    modifies db
    ensures db.Valid() && db.staged == None
    ensures outcome == UsernameTaken <==> !queryFails && username.Some? && username.value in old(db.tables.users)
    ensures outcome == Registered <==>
      !queryFails && username.Some? && username.value !in old(db.tables.users) && password.Some? && !commitFails
    ensures outcome == Registered ==>
      db.tables == Apply(old(db.tables), InsertUser(username.value, hash(password.value)))
      && |db.tables.users| == |old(db.tables.users)| + 1
      && db.tables.users[username.value] == User(old(db.tables.nextUserId), hash(password.value))
    ensures outcome != Registered ==> db.tables == old(db.tables)
  {
    if queryFails {
      db.Rollback();
      return RegisterFailed;
    }
    if username.Some? && username.value in db.tables.users {
      return UsernameTaken;
    }
    // A missing password makes the hashing raise; a missing name makes the
    // commit raise (the column is NOT NULL). Both end in the rollback.
    if username.None? || password.None? {
      db.Rollback();
      return RegisterFailed;
    }
    InsertUserAddsOne(db.tables, username.value, hash(password.value));
    db.Stage(InsertUser(username.value, hash(password.value)));
    var ok := db.Commit(commitFails);
    if !ok {
      db.Rollback();
      return RegisterFailed;
    }
    return Registered;
  }

  datatype LoginOutcome = LoggedIn(userId: nat) | LoginRejected | LoginCrashed

  /**
   * POST /login: the first user with that name, if any, and the password
   * check (`checkPassword` stands for `check_password_hash(hash, password)`).
   * A missing password reaching the check raises outside any handler.
   */
  function Login(users: map<string, User>, username: Option<string>, password: Option<string>,
                 checkPassword: (string, string) -> bool): (r: LoginOutcome)
    ensures r.LoggedIn? <==>
      username.Some? && username.value in users && password.Some?
      && checkPassword(users[username.value].hashedPassword, password.value)
    ensures r.LoggedIn? ==> r.userId == users[username.value].userId
    ensures r == LoginCrashed <==> username.Some? && username.value in users && password.None?
  {
    if username.None? || username.value !in users then LoginRejected
    else if password.None? then LoginCrashed
    else if checkPassword(users[username.value].hashedPassword, password.value) then
      LoggedIn(users[username.value].userId)
    else LoginRejected
  }

  /** A user who registered with a password can log in with it, given a sound hash check. */
  lemma LoginAfterRegister(t: Tables, name: string, password: string,
                           hash: string -> string, checkPassword: (string, string) -> bool)
    requires checkPassword(hash(password), password)
    ensures Login(Apply(t, InsertUser(name, hash(password))).users, Some(name), Some(password), checkPassword)
            == LoggedIn(t.nextUserId)
  {
  }

  // ---------------------------------------------------------------------------
  // Upload
  // ---------------------------------------------------------------------------

  /** The multipart request: the 'image' file field, if sent, and the 'caption' form field. */
  datatype UploadRequest = UploadRequest(image: Option<string>, caption: Option<string>)

  datatype UploadOutcome =
    | NoImageField
    | EmptyFilename
    | UnsupportedType
    | UploadFailed
    | Uploaded(record: Image)

  /**
   * The stored blob's name: "<uuid>.<ext>", the extension being the lower-cased
   * text after the last '.' of the sanitized name; None where `rsplit` has no
   * second part (the sanitized name lost its '.') and raises.
   */
  function BlobName(uuid: string, sanitized: string): (r: Option<string>)
    ensures r.Some? <==> '.' in sanitized
    ensures r.Some? ==>
      && |r.value| > |uuid| && r.value[..|uuid| + 1] == uuid + "."
      && r.value[|uuid| + 1..] == Strings.Lower(Strings.AfterLast(sanitized, '.'))
      && (forall i :: |uuid| < i < |r.value| ==> !('A' <= r.value[i] <= 'Z'))
  {
    if '.' in sanitized then Some(uuid + "." + Strings.Lower(Strings.AfterLast(sanitized, '.')))
    else None
  }

  /** The blob name splits back into the uuid and the lower-cased extension. */
  lemma BlobNameParts(uuid: string, sanitized: string)
    requires '.' !in uuid
    ensures BlobName(uuid, sanitized).Some? <==> '.' in sanitized
    ensures BlobName(uuid, sanitized).Some? ==>
      var name := BlobName(uuid, sanitized).value;
      && Strings.AfterLast(name, '.') == Strings.Lower(Strings.AfterLast(sanitized, '.'))
      && Strings.BeforeFirst(name, '.') == uuid
      && |name| == |uuid| + 1 + |Strings.AfterLast(sanitized, '.')|
  {
    if '.' in sanitized {
      var ext := Strings.Lower(Strings.AfterLast(sanitized, '.'));
      Strings.LowerKeepsAbsent(Strings.AfterLast(sanitized, '.'), '.');
      assert uuid + "." + ext == uuid + ['.'] + ext;
      Strings.AfterLastOfSplit(uuid, '.', ext);
      Strings.BeforeFirstOfSplit(uuid, '.', ext);
    }
  }

  /**
   * POST /upload for the logged-in user `currentUserId`. `sanitize` stands
   * for `secure_filename`, `uuid` for `uuid.uuid4()`, `storeBlob(name)` for
   * uploading to the "originals" container (the blob's URL, or None when the
   * storage client raises), `commitFails` for a failing commit.
   */
  method UploadImage(db: Database, request: UploadRequest, currentUserId: nat,
                     sanitize: string -> string, uuid: string,
                     storeBlob: string -> Option<string>, commitFails: bool)
    returns (outcome: UploadOutcome)
    requires db.Valid() && db.staged == None
    modifies db
    ensures db.Valid() && db.staged == None
    ensures outcome == NoImageField <==> request.image.None?
    ensures outcome == EmptyFilename <==> request.image == Some("")
    ensures outcome == UnsupportedType <==>
      request.image.Some? && request.image.value != "" && !AllowedFile(request.image.value)
    ensures outcome.Uploaded? <==>
      && request.image.Some? && request.image.value != "" && AllowedFile(request.image.value)
      && BlobName(uuid, sanitize(request.image.value)).Some?
      && storeBlob(BlobName(uuid, sanitize(request.image.value)).value).Some?
      && !commitFails
    ensures outcome.Uploaded? ==>
      var url := storeBlob(BlobName(uuid, sanitize(request.image.value)).value).value;
      && outcome.record == Image(old(db.tables.nextImageId), request.caption.GetOr(""), currentUserId, Some(url), Some(url))
      && db.tables.images == old(db.tables.images) + [outcome.record]
      && db.tables == Apply(old(db.tables), InsertImage(request.caption.GetOr(""), currentUserId, url, url))
    ensures !outcome.Uploaded? ==> db.tables == old(db.tables)
  {
    if request.image.None? {
      outcome := NoImageField;
    } else if request.image.value == "" {
      outcome := EmptyFilename;
    } else if !AllowedFile(request.image.value) {
      outcome := UnsupportedType;
    } else {
      outcome := StoreUpload(db, request.image.value, request.caption.GetOr(""), currentUserId,
                             sanitize, uuid, storeBlob, commitFails);
    }
  }

  /**
   * The part of POST /upload inside its `try`: name the blob, store it, and
   * record the row. Any failure rolls back and leaves the tables unchanged.
   */
  method StoreUpload(db: Database, filename: string, caption: string, currentUserId: nat,
                     sanitize: string -> string, uuid: string,
                     storeBlob: string -> Option<string>, commitFails: bool)
    returns (outcome: UploadOutcome)
    requires db.Valid() && db.staged == None
    modifies db
    ensures db.Valid() && db.staged == None
    ensures outcome == UploadFailed || outcome.Uploaded?
    ensures outcome.Uploaded? <==>
      && BlobName(uuid, sanitize(filename)).Some?
      && storeBlob(BlobName(uuid, sanitize(filename)).value).Some?
      && !commitFails
    ensures outcome.Uploaded? ==>
      var url := storeBlob(BlobName(uuid, sanitize(filename)).value).value;
      && outcome.record == Image(old(db.tables.nextImageId), caption, currentUserId, Some(url), Some(url))
      && db.tables == Apply(old(db.tables), InsertImage(caption, currentUserId, url, url))
    ensures !outcome.Uploaded? ==> db.tables == old(db.tables)
  {
    var name := BlobName(uuid, sanitize(filename));
    var url := if name.Some? then storeBlob(name.value) else None;
    if url.None? {
      db.Rollback();
      outcome := UploadFailed;
    } else {
      var id := db.tables.nextImageId;
      db.Stage(InsertImage(caption, currentUserId, url.value, url.value));
      var ok := db.Commit(commitFails);
      if ok {
        outcome := Uploaded(Image(id, caption, currentUserId, Some(url.value), Some(url.value)));
      } else {
        db.Rollback();
        outcome := UploadFailed;
      }
    }
  }

  // ---------------------------------------------------------------------------
  // Listings
  // ---------------------------------------------------------------------------

  /** The rows `keep` selects, in table order: a `WHERE` clause. */
  function Filter(images: seq<Image>, keep: Image -> bool): (r: seq<Image>)
    ensures forall x :: multiset(r)[x] == if keep(x) then multiset(images)[x] else 0
  {
    if images == [] then []
    else
      assert images == [images[0]] + images[1..];
      if keep(images[0]) then [images[0]] + Filter(images[1..], keep)
      else Filter(images[1..], keep)
  }

  /** Selecting rows keeps keys unique. */
  lemma {:induction false} FilterKeepsDistinct(images: seq<Image>, keep: Image -> bool)
    requires DistinctIds(images)
    ensures DistinctIds(Filter(images, keep))
  {
    if images != [] {
      var tail := images[1..];
      assert DistinctIds(tail) by {
        forall i, j | 0 <= i < |tail| && 0 <= j < |tail| && i != j
          ensures tail[i].imageId != tail[j].imageId
        {
          assert tail[i] == images[i + 1] && tail[j] == images[j + 1];
        }
      }
      FilterKeepsDistinct(tail, keep);
      var rest := Filter(tail, keep);
      if keep(images[0]) {
        forall k | 0 <= k < |rest| ensures rest[k].imageId != images[0].imageId {
          assert rest[k] in multiset(rest);
          var j :| 0 <= j < |tail| && tail[j] == rest[k];
          assert images[j + 1] == rest[k];
        }
      }
    }
  }

  predicate DescendingById(s: seq<Image>) {
    forall i, j :: 0 <= i < j < |s| ==> s[i].imageId >= s[j].imageId
  }

  predicate StrictlyDescendingById(s: seq<Image>) {
    forall i, j :: 0 <= i < j < |s| ==> s[i].imageId > s[j].imageId
  }

  /** Inserts `x` in front of the first element whose key is not above its own. */
  function InsertById(x: Image, s: seq<Image>): (r: seq<Image>)
    ensures multiset(r) == multiset(s) + multiset{x}
  {
    if s == [] || x.imageId >= s[0].imageId then [x] + s
    else
      assert s == [s[0]] + s[1..];
      [s[0]] + InsertById(x, s[1..])
  }

  /** `ORDER BY imageid DESC`. */
  function SortById(s: seq<Image>): (r: seq<Image>)
    ensures multiset(r) == multiset(s)
  {
    if s == [] then []
    else
      assert s == [s[0]] + s[1..];
      InsertById(s[0], SortById(s[1..]))
  }

  /** Every element of `InsertById(x, s)` is `x` or an element of `s`. */
  lemma InsertByIdFrom(x: Image, s: seq<Image>, k: nat)
    requires k < |InsertById(x, s)|
    ensures InsertById(x, s)[k] == x || InsertById(x, s)[k] in s
  {
    var r := InsertById(x, s);
    assert r[k] in multiset(r);
  }

  lemma {:induction false} InsertByIdDescending(x: Image, s: seq<Image>)
    requires DescendingById(s)
    ensures DescendingById(InsertById(x, s))
  {
    if s == [] || x.imageId >= s[0].imageId {
    } else {
      var rest := InsertById(x, s[1..]);
      InsertByIdDescending(x, s[1..]);
      forall k | 0 <= k < |rest| ensures s[0].imageId >= rest[k].imageId {
        InsertByIdFrom(x, s[1..], k);
      }
    }
  }

  lemma {:induction false} InsertByIdStrict(x: Image, s: seq<Image>)
    requires StrictlyDescendingById(s)
    requires forall k :: 0 <= k < |s| ==> s[k].imageId != x.imageId
    ensures StrictlyDescendingById(InsertById(x, s))
  {
    if s == [] || x.imageId >= s[0].imageId {
    } else {
      var rest := InsertById(x, s[1..]);
      InsertByIdStrict(x, s[1..]);
      forall k | 0 <= k < |rest| ensures s[0].imageId > rest[k].imageId {
        InsertByIdFrom(x, s[1..], k);
      }
    }
  }

  /** `SortById` orders by key, highest first. */
  lemma {:induction false} SortByIdDescending(s: seq<Image>)
    ensures DescendingById(SortById(s))
  {
    if s != [] {
      SortByIdDescending(s[1..]);
      InsertByIdDescending(s[0], SortById(s[1..]));
    }
  }

  /** With unique keys, the order is strict. */
  lemma {:induction false} SortByIdStrict(s: seq<Image>)
    requires DistinctIds(s)
    ensures StrictlyDescendingById(SortById(s))
  {
    if s != [] {
      var rest := SortById(s[1..]);
      assert DistinctIds(s[1..]) by {
        forall i, j | 0 <= i < |s[1..]| && 0 <= j < |s[1..]| && i != j
          ensures s[1..][i].imageId != s[1..][j].imageId
        {
          assert s[1..][i] == s[i + 1] && s[1..][j] == s[j + 1];
        }
      }
      SortByIdStrict(s[1..]);
      forall k | 0 <= k < |rest| ensures rest[k].imageId != s[0].imageId {
        assert rest[k] in multiset(rest);
        var j :| 0 <= j < |s[1..]| && s[1..][j] == rest[k];
        assert s[j + 1] == rest[k];
      }
      InsertByIdStrict(s[0], rest);
    }
  }

  /** Unique, ascending keys are in particular distinct. */
  lemma AscendingIsDistinct(images: seq<Image>)
    requires IdsAscending(images)
    ensures DistinctIds(images)
  {
    forall i, j | 0 <= i < |images| && 0 <= j < |images| && i != j
      ensures images[i].imageId != images[j].imageId
    {
      if i < j { assert images[i].imageId < images[j].imageId; }
      else { assert images[j].imageId < images[i].imageId; }
    }
  }

  /**
   * GET /images: the current user's images, newest key first. Exactly the
   * user's rows, each as often as in the table.
   */
  function UserImages(images: seq<Image>, currentUserId: nat): (r: seq<Image>)
    ensures forall x :: multiset(r)[x] == if x.ownerUserId == currentUserId then multiset(images)[x] else 0
    ensures forall x :: x in r <==> x in images && x.ownerUserId == currentUserId
    ensures DescendingById(r)
    ensures DistinctIds(images) ==> StrictlyDescendingById(r)
  {
    var keep := (img: Image) => img.ownerUserId == currentUserId;
    var mine := Filter(images, keep);
    SortByIdDescending(mine);
    if DistinctIds(images) then FilterKeepsDistinct(images, keep); SortByIdStrict(mine); SortById(mine)
    else SortById(mine)
  }

  /** GET /gallery: every image, newest key first. */
  function Gallery(images: seq<Image>): (r: seq<Image>)
    ensures multiset(r) == multiset(images)
    ensures DescendingById(r)
    ensures DistinctIds(images) ==> StrictlyDescendingById(r)
  {
    SortByIdDescending(images);
    if DistinctIds(images) then SortByIdStrict(images); SortById(images)
    else SortById(images)
  }

  /** On a valid database both listings are strictly newest-first. */
  lemma ListingsStrictOnValidTables(t: Tables, currentUserId: nat)
    requires TablesValid(t)
    ensures StrictlyDescendingById(Gallery(t.images))
    ensures StrictlyDescendingById(UserImages(t.images, currentUserId))
  {
    AscendingIsDistinct(t.images);
  }
}
