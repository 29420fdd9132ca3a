/**
 * `LocalFileStorage.SaveAsync`: where an upload is filed and the media row
 * that records it. The directory creation and the file write are left out;
 * what remains is the stored name, the relative path and the row.
 */
module FileStorage {
  import opened Wrappers
  import opened Clock
  import opened Entities
  import opened Persistence
  import Text

  /** The two configuration keys `FileStorage:Root` and `FileStorage:UploadsFolder`, each possibly missing. */
  datatype StorageConfig = StorageConfig(root: Option<string>, uploadsFolder: Option<string>)

  /** What the storage reads of an uploaded form file: the client's file name and the length in bytes. */
  datatype FormFile = FormFile(fileName: string, length: int)

  /** The directory under the content root the files go to. */
  function Root(cfg: StorageConfig): (s: string)
    ensures cfg.root.None? ==> s == "wwwroot"
    ensures cfg.root.Some? ==> s == cfg.root.value
  {
    cfg.root.GetOr("wwwroot")
  }

  /** The folder name that starts every relative path. */
  function UploadsFolder(cfg: StorageConfig): (s: string)
    ensures cfg.uploadsFolder.None? ==> s == "uploads"
    ensures cfg.uploadsFolder.Some? ==> s == cfg.uploadsFolder.value
  {
    cfg.uploadsFolder.GetOr("uploads")
  }

  /** `Path.GetExtension` on the characters before position `i`, scanning back from `i`. */
  function ExtensionBefore(path: string, i: nat): string
    requires i <= |path|
  {
    if i == 0 then ""
    else if path[i - 1] == '.' then (if i == |path| then "" else path[i - 1..])
    else if path[i - 1] == '/' then ""
    else ExtensionBefore(path, i - 1)
  }

  /**
   * Scanning back from `i` over characters that are neither '.' nor '/'
   * yields a suffix of `path`: a '.' and at least one more character, none
   * of them '.' or '/'; or nothing, when the '.' found is the last
   * character or no '.' lies after the last '/' before `i`.
   */
  lemma {:induction false} ExtensionBeforeShape(path: string, i: nat)
    requires i <= |path|
    requires forall j :: i <= j < |path| ==> path[j] != '.' && path[j] != '/'
    ensures var ext := ExtensionBefore(path, i);
      && |ext| <= |path| && ext == path[|path| - |ext|..]
      && (ext != [] ==> |ext| >= 2 && ext[0] == '.' && forall j :: 1 <= j < |ext| ==> ext[j] != '.' && ext[j] != '/')
      && (ext == [] ==>
            || (i == |path| && i > 0 && path[i - 1] == '.')
            || forall k :: 0 <= k < i && path[k] == '.' ==> exists j :: k < j < i && path[j] == '/')
    decreases i
  {
    if i > 0 && path[i - 1] != '.' && path[i - 1] != '/' {
      ExtensionBeforeShape(path, i - 1);
    }
  }

  /**
   * `Path.GetExtension(fileName)` with the Unix directory separator: from
   * the last '.' that follows every '/' to the end, or empty when there is
   * no such '.' or it is the last character.
   */
  function GetExtension(fileName: string): string {
    ExtensionBefore(fileName, |fileName|)
  }

  /** The extension is a suffix of the name, of the form just described. */
  lemma GetExtensionShape(fileName: string)
    ensures var ext := GetExtension(fileName);
      && |ext| <= |fileName| && ext == fileName[|fileName| - |ext|..]
      && (ext != [] ==> |ext| >= 2 && ext[0] == '.' && forall j :: 1 <= j < |ext| ==> ext[j] != '.' && ext[j] != '/')
      && (ext == [] ==>
            || |fileName| == 0 || fileName[|fileName| - 1] == '.'
            || forall k :: 0 <= k < |fileName| && fileName[k] == '.' ==> exists j :: k < j < |fileName| && fileName[j] == '/')
  {
    ExtensionBeforeShape(fileName, |fileName|);
  }

  /** `Guid.ToString("N")`: 32 lower-case hexadecimal digits. */
  function GuidN(g: Guid): (s: string)
    ensures |s| == 32 && forall i :: 0 <= i < 32 ==> Text.IsDigit(s[i], 16)
  {
    Text.Pad(g, 16, 32)
  }

  lemma GuidFitsN()
    ensures Text.Pow(16, 32) == GuidLimit
  {
    assert Text.Pow(16, 8) == 0x1_0000_0000;
    assert Text.Pow(16, 16) == 0x1_0000_0000 * Text.Pow(16, 8) by {
      PowAdd(16, 8, 8);
    }
    assert Text.Pow(16, 32) == Text.Pow(16, 16) * Text.Pow(16, 16) by {
      PowAdd(16, 16, 16);
    }
  }

  lemma {:induction false} PowAdd(b: nat, m: nat, n: nat)
    ensures Text.Pow(b, m + n) == Text.Pow(b, m) * Text.Pow(b, n)
    decreases m
  {
    if m > 0 {
      PowAdd(b, m - 1, n);
    }
  }

  /** The textual form of a GUID gives the GUID back. */
  lemma GuidNRoundTrip(g: Guid)
    ensures Text.Parse(GuidN(g), 16) == g
  {
    GuidFitsN();
    Text.ParsePad(g, 16, 32);
  }

  /** The stored file name: a fresh GUID in "N" form followed by the client file's extension. */
  function SafeName(name: Guid, fileName: string): string {
    GuidN(name) + GetExtension(fileName)
  }

  /**
   * A stored name takes apart into its GUID, which it gives back, and the
   * client file's extension; so two uploads with different GUIDs never
   * share a stored name, whatever their file names.
   */
  lemma SafeNameParts(name: Guid, fileName: string)
    ensures var s := SafeName(name, fileName);
      && |s| >= 32 && Text.Parse(s[..32], 16) == name && s[32..] == GetExtension(fileName)
  {
    var s := SafeName(name, fileName);
    assert s[..32] == GuidN(name);
    GuidNRoundTrip(name);
  }

  lemma SafeNamesDistinct(g1: Guid, g2: Guid, f1: string, f2: string)
    requires g1 != g2
    ensures SafeName(g1, f1) != SafeName(g2, f2)
  {
    SafeNameParts(g1, f1);
    SafeNameParts(g2, f2);
  }

  /** No character of `s` is `c`. */
  predicate Lacks(s: string, c: char) {
    forall i :: 0 <= i < |s| ==> s[i] != c
  }

  lemma ConcatLacks(a: string, b: string, c: char)
    requires Lacks(a, c) && Lacks(b, c)
    ensures Lacks(a + b, c)
  {
    assert forall i :: 0 <= i < |a + b| ==> (a + b)[i] == if i < |a| then a[i] else b[i - |a|];
  }

  /** An extension has no directory separator in it. */
  lemma ExtensionLacksSeparator(fileName: string)
    ensures Lacks(GetExtension(fileName), '/')
  {
    GetExtensionShape(fileName);
  }

  /** A stored name never contains a directory separator, so the file lands in the dated folder. */
  lemma SafeNameHasNoSeparator(g: Guid, f: string)
    ensures Lacks(SafeName(g, f), '/')
  {
    assert Lacks(GuidN(g), '/');
    ExtensionLacksSeparator(f);
    ConcatLacks(GuidN(g), GetExtension(f), '/');
  }

  /** `DateTime.ToString("yyyy/MM")`, with '/' as the date separator. */
  function DatePath(now: DateTime): string {
    MonthFolder(DatePart(now))
  }

  /** The year in four digits, '/', the month in two. */
  function MonthFolder(d: YearMonth): string
    requires 1 <= d.year <= 9999 && 1 <= d.month <= 12
  {
    Text.Pad(d.year, 10, 4) + "/" + Text.Pad(d.month, 10, 2)
  }

  /** The date folder takes apart into the four-digit year and the two-digit month of `now`. */
  lemma DatePathParts(now: DateTime)
    ensures var s := DatePath(now);
      && |s| == 7 && s[4] == '/'
      && Text.Parse(s[..4], 10) == DatePart(now).year && Text.Parse(s[5..], 10) == DatePart(now).month
  {
    MonthFolderParts(DatePart(now));
  }

  lemma MonthFolderParts(d: YearMonth)
    requires 1 <= d.year <= 9999 && 1 <= d.month <= 12
    ensures var s := MonthFolder(d);
      && |s| == 7 && s[4] == '/' && Text.Parse(s[..4], 10) == d.year && Text.Parse(s[5..], 10) == d.month
  {
    var year, month := Text.Pad(d.year, 10, 4), Text.Pad(d.month, 10, 2);
    var s := MonthFolder(d);
    ConcatParts(year + "/", month);
    ConcatParts(year, "/");
    assert s[..4] == s[..5][..4] == year;
    PadParses(d.year, 4, 10000);
    PadParses(d.month, 2, 100);
  }

  /** A number below 10^w reads back from its w decimal digits. */
  lemma PadParses(n: nat, w: nat, limit: nat)
    requires n < limit && limit == Text.Pow(10, w)
    ensures Text.Parse(Text.Pad(n, 10, w), 10) == n
  {
    Text.ParsePad(n, 10, w);
  }

  /** `$"/{uploadsFolder}/{datePath}/{safeName}"`. */
  function RelativePath(cfg: StorageConfig, now: DateTime, safeName: string): string {
    "/" + UploadsFolder(cfg) + "/" + DatePath(now) + "/" + safeName
  }

  /** A concatenation takes apart into its two halves. */
  lemma ConcatParts(a: string, b: string)
    ensures |a + b| == |a| + |b| && (a + b)[..|a|] == a && (a + b)[|a|..] == b
  {
  }

  /**
   * The relative path takes apart again into the uploads folder between
   * separators, the date folder, a separator and the stored name.
   */
  lemma RelativePathParts(cfg: StorageConfig, now: DateTime, safeName: string)
    ensures var s := RelativePath(cfg, now, safeName);
      var n := |UploadsFolder(cfg)|;
      && |s| == n + 10 + |safeName|
      && s[..n + 2] == "/" + UploadsFolder(cfg) + "/"
      && s[n + 2..n + 9] == DatePath(now) && s[n + 9] == '/'
      && s[n + 10..] == safeName
  {
    var folder, date := UploadsFolder(cfg), DatePath(now);
    var n := |folder|;
    assert |date| == 7 by {
      var d := DatePart(now);
      assert |MonthFolder(d)| == |Text.Pad(d.year, 10, 4)| + 1 + |Text.Pad(d.month, 10, 2)|;
    }
    var p2 := "/" + folder + "/";
    var p3 := p2 + date;
    var p4 := p3 + "/";
    assert RelativePath(cfg, now, safeName) == p4 + safeName;
    ConcatParts(p4, safeName);
    ConcatParts(p3, "/");
    ConcatParts(p2, date);
    assert p4[..n + 2] == p3[..n + 2] == p2;
    assert p4[n + 2..n + 9] == p3[n + 2..] == date;
  }

  /** The new media entity `SaveAsync` adds, before auditing. */
  function MediaEntity(cfg: StorageConfig, file: FormFile, kind: MediaKind, responseId: Option<Guid>, answerId: Option<Guid>,
                       name: Guid, id: Guid, now: DateTime): Entity
  {
    Entity(NewBase(id, now), MediaData(
      MediaFile(file.fileName, RelativePath(cfg, now, SafeName(name, file.fileName)), kind, file.length, responseId, answerId)))
  }

  /**
   * The media row records the client's file name and length, the kind and
   * the owners as given, and a path under the uploads folder whose last
   * part is the stored name: the GUID `name`, which it gives back, and the
   * client file's extension.
   */
  lemma MediaEntityRecordsUpload(cfg: StorageConfig, file: FormFile, kind: MediaKind, responseId: Option<Guid>,
                                 answerId: Option<Guid>, name: Guid, id: Guid, now: DateTime)
    ensures var e := MediaEntity(cfg, file, kind, responseId, answerId, name, id, now);
      var n := |UploadsFolder(cfg)|;
      && e.base == NewBase(id, now) && e.data.MediaData?
      && e.data.media.fileName == file.fileName && e.data.media.sizeBytes == file.length && e.data.media.kind == kind
      && e.data.media.responseId == responseId && e.data.media.answerId == answerId
      && |e.data.media.relativePath| >= n + 42
      && e.data.media.relativePath[..n + 2] == "/" + UploadsFolder(cfg) + "/"
      && Text.Parse(e.data.media.relativePath[n + 10..n + 42], 16) == name
      && e.data.media.relativePath[n + 42..] == GetExtension(file.fileName)
  {
    var safe := SafeName(name, file.fileName);
    var path := RelativePath(cfg, now, safe);
    var n := |UploadsFolder(cfg)|;
    RelativePathParts(cfg, now, safe);
    SafeNameParts(name, file.fileName);
    assert path[n + 10..n + 42] == path[n + 10..][..32] == safe[..32];
    assert path[n + 42..] == path[n + 10..][32..] == safe[32..];
  }

  /** A media row whose owners exist can be committed: a media row has no name and no other foreign key. */
  lemma MediaCommits(t: Table, cfg: StorageConfig, file: FormFile, kind: MediaKind, responseId: Option<Guid>,
                     answerId: Option<Guid>, name: Guid, id: Guid, now: DateTime)
    requires id !in t.rows && Committable(t.rows)
    requires responseId.Some? ==> Resolves(t.rows, (SurveyResponses, responseId.value))
    requires answerId.Some? ==> Resolves(t.rows, (Answers, answerId.value))
    ensures Committable(t.Insert(MediaEntity(cfg, file, kind, responseId, answerId, name, id, now)).rows)
  {
    var e := MediaEntity(cfg, file, kind, responseId, answerId, name, id, now);
    CommitOwned(t, e);
  }

  /** The same for any media row, whatever its path. */
  lemma CommitOwned(t: Table, e: Entity)
    requires e.base.id !in t.rows && Committable(t.rows) && e.data.MediaData?
    requires e.data.media.responseId.Some? ==> Resolves(t.rows, (SurveyResponses, e.data.media.responseId.value))
    requires e.data.media.answerId.Some? ==> Resolves(t.rows, (Answers, e.data.media.answerId.value))
    ensures Committable(t.Insert(e).rows)
  {
    forall ref | ref in References(e.data) ensures Resolves(t.rows, ref) {
    }
    CommitAfterInsert(t, e);
  }

  /** The local file storage over the request's unit of work. */
  class LocalFileStorage {
    const cfg: StorageConfig
    const db: AppDbContext

    constructor (cfg: StorageConfig, db: AppDbContext)
      ensures this.cfg == cfg && this.db == db
    {
      this.cfg := cfg;
      this.db := db;
    }

    /**
     * `SaveAsync`: the media row is added to the unit of work and
     * everything pending is saved, audited as one pass. The answer is the
     * audited row, or None when the database refuses the save (the
     * exception the caller does not catch). `name` is the GUID of the
     * stored name and `id` the row's id.
     */
    method SaveAsync(file: FormFile, kind: MediaKind, responseId: Option<Guid>, answerId: Option<Guid>,
                     name: Guid, id: Guid, now: DateTime) returns (r: Option<Entity>)
      requires db.Valid() && db.store.Valid() && id !in db.table.rows
      modifies db, db.store
      ensures db.Valid() && db.store.Valid()
      ensures var e := MediaEntity(cfg, file, kind, responseId, answerId, name, id, now);
        && db.table == Audited(old(db.table).Insert(e), old(db.entries)[id := Added], now, db.user)
        && (r.Some? <==> Committable(old(db.table).Insert(e).rows) && RowsMatched(old(db.entries), old(db.store.table).rows))
        && (r.Some? ==> r.value == db.table.rows[id] && db.store.table == db.table && db.entries == map[])
        && (r.None? ==> db.store.table == old(db.store.table))
    {
      var media := MediaEntity(cfg, file, kind, responseId, answerId, name, id, now);
      ghost var e0 := db.entries;
      db.Add(media);
      assert RowsMatched(db.entries, db.store.table.rows) <==> RowsMatched(e0, db.store.table.rows);
      var ok := db.SaveChanges(now);
      if !ok {
        return None;
      }
      r := Some(db.table.rows[id]);
    }
  }
}
