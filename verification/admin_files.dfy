/** `AdminNotificationService` apart from its SSE connections: the app
    files and their download counter, and notices with an optional image.
    Also the identifier dispatch of `NoticeController.subscribe`.

    The upload directory is a set of paths relative to the configured base
    directory. Writing a file adds its path and deleting removes it. The
    bytes, directory creation and path normalisation are not modelled. */
module AdminFiles {
  import opened Base
  import opened Text
  import opened Seqs
  import opened Users
  import opened Entities

  /** The files under the upload base directory, by relative path. */
  type Disk = set<string>

  /** A multipart part: its original file name (which may be null) and its
      size; `isEmpty()` means size 0. */
  datatype FilePart = FilePart(originalName: Option<string>, size: nat)

  const URL_ROOT := "/uploads/"
  const APP_FILE_STEM := "BSSM_Meal_Latest."
  const NOTICE_DIR := "notices/"

  /** `file == null || file.isEmpty()`. */
  predicate NoFile(file: Option<FilePart>) {
    file.None? || file.value.size == 0
  }

  // ---------------------------------------------------------------------
  // App files
  // ---------------------------------------------------------------------

  /** Where an app file of `appType` is written, relative to the base
      directory: `<lower>/BSSM_Meal_Latest.<lower>`. */
  function AppFileOnDisk(appType: string): string {
    ToLower(appType) + "/" + APP_FILE_STEM + ToLower(appType)
  }

  /** `uploadAppFile`: refuses a missing or empty file; otherwise writes
      the file under the lower-cased type, replacing any earlier one, and
      returns its public URL. */
  function UploadAppFile(disk: Disk, appType: string, file: Option<FilePart>): (r: Result<(string, Disk)>)
    ensures r.Err? <==> NoFile(file)
    ensures r.Err? ==> r.failure == IllegalArgument
    ensures r.Ok? ==> r.value.1 == disk + {AppFileOnDisk(appType)}
    ensures r.Ok? ==> StartsWith(r.value.0, URL_ROOT) && r.value.0[|URL_ROOT|..] == AppFileOnDisk(appType)
  {
    if NoFile(file) then Err(IllegalArgument)
    else
      var subPath := ToLower(appType);
      var fileName := APP_FILE_STEM + subPath;
      var url := URL_ROOT + subPath + "/" + fileName;
      assert url == URL_ROOT + AppFileOnDisk(appType);
      assert url[..|URL_ROOT|] == URL_ROOT;
      Ok((url, disk + {AppFileOnDisk(appType)}))
  }

  /** The URL `getDownloadUrlAndCount` hands out for `appType`. */
  function DownloadUrl(appType: string): string {
    URL_ROOT + ToLower(appType) + "/BSSM_Meal_Latest." + ToLower(appType)
  }

  /** The URL an upload returns is the one downloads of the same type are
      sent to, and it names the file the upload wrote. */
  lemma UploadMatchesDownload(disk: Disk, appType: string, file: Option<FilePart>)
    requires !NoFile(file)
    ensures var r := UploadAppFile(disk, appType, file);
            && r.Ok? && r.value.0 == DownloadUrl(appType)
            && DeletionTarget(Some(DownloadUrl(appType))) == Some(AppFileOnDisk(appType))
            && AppFileOnDisk(appType) in r.value.1
  {
    var r := UploadAppFile(disk, appType, file);
    assert r.value.0 == DownloadUrl(appType);
  }

  /** Upper- and lower-casing an ASCII letter agree on which letters are
      the same. */
  lemma SameLetterCase(c: char, d: char)
    ensures LowerChar(c) == LowerChar(d) <==> UpperChar(c) == UpperChar(d)
  {
  }

  /** The upload folder (lower case) and the counter key (upper case)
      agree on which spellings of a type name the same app. */
  lemma SpellingsShareCounter(a: string, b: string)
    ensures ToLower(a) == ToLower(b) <==> ToUpper(a) == ToUpper(b)
  {
    if |a| == |b| {
      forall i | 0 <= i < |a| ensures ToLower(a)[i] == ToLower(b)[i] <==> ToUpper(a)[i] == ToUpper(b)[i] {
        SameLetterCase(a[i], b[i]);
      }
      if ToLower(a) == ToLower(b) {
        assert forall i :: 0 <= i < |a| ==> ToLower(a)[i] == ToLower(b)[i];
      }
      if ToUpper(a) == ToUpper(b) {
        assert forall i :: 0 <= i < |a| ==> ToUpper(a)[i] == ToUpper(b)[i];
      }
    }
  }

  // ---------------------------------------------------------------------
  // Download counter
  // ---------------------------------------------------------------------

  /** The counter table: each row stored under its own app type, each
      count a `Long`. */
  predicate StatsTable(stats: map<string, AppDownloadStats>) {
    forall k :: k in stats ==> stats[k].appType == k && LONG_MIN <= stats[k].downloadCount <= LONG_MAX
  }

  /** The count stored for `key`, 0 for a type never downloaded. */
  function CountOf(stats: map<string, AppDownloadStats>, key: string): int {
    if key in stats then stats[key].downloadCount else 0
  }

  /** `getDownloadUrlAndCount`: the row under the upper-cased type, made at
      0 if absent, goes up by one and is stamped `now`; the download URL is
      returned. */
  function Download(stats: map<string, AppDownloadStats>, appType: string, now: Instant)
    : (r: (string, map<string, AppDownloadStats>))
    requires StatsTable(stats)
    ensures r.0 == DownloadUrl(appType)
    ensures StatsTable(r.1)
    ensures r.1.Keys == stats.Keys + {ToUpper(appType)}
    ensures CountOf(stats, ToUpper(appType)) < LONG_MAX ==>
              CountOf(r.1, ToUpper(appType)) == CountOf(stats, ToUpper(appType)) + 1
    ensures r.1[ToUpper(appType)].lastDownloadedAt == Some(now)
    ensures forall k :: k in stats && k != ToUpper(appType) ==> r.1[k] == stats[k]
  {
    var key := ToUpper(appType);
    var row := if key in stats then stats[key] else NewAppDownloadStats(key);
    var stored := stats[key := Increment(row, now)];
    (URL_ROOT + ToLower(appType) + "/BSSM_Meal_Latest." + ToLower(appType), stored)
  }

  /** Several downloads in a row. */
  function DownloadAll(stats: map<string, AppDownloadStats>, types: seq<string>, now: Instant)
    : (r: map<string, AppDownloadStats>)
    requires StatsTable(stats)
    ensures StatsTable(r)
    decreases |types|
  {
    if types == [] then stats else DownloadAll(Download(stats, types[0], now).1, types[1..], now)
  }

  /** How many of `types` count under `key`. */
  function Occurrences(types: seq<string>, key: string): nat {
    if types == [] then 0 else (if ToUpper(types[0]) == key then 1 else 0) + Occurrences(types[1..], key)
  }

  /** Every download is counted once, under its upper-cased type, as long as
      no count reaches the `Long` limit; a type shows up in the table
      exactly when it was there before or was downloaded. */
  lemma {:induction false} DownloadsAreCounted(stats: map<string, AppDownloadStats>, types: seq<string>,
                                               now: Instant, key: string)
    requires StatsTable(stats)
    requires |types| <= LONG_MAX
    requires forall k :: k in stats ==> 0 <= stats[k].downloadCount <= LONG_MAX - |types|
    ensures CountOf(DownloadAll(stats, types, now), key) == CountOf(stats, key) + Occurrences(types, key)
    ensures key in DownloadAll(stats, types, now) <==> key in stats || Occurrences(types, key) > 0
    decreases |types|
  {
    if types != [] {
      var next := Download(stats, types[0], now).1;
      forall k | k in next ensures 0 <= next[k].downloadCount <= LONG_MAX - |types[1..]| {
        if k == ToUpper(types[0]) {
          assert CountOf(next, k) == CountOf(stats, k) + 1;
        } else {
          assert k in stats && next[k] == stats[k];
        }
      }
      DownloadsAreCounted(next, types[1..], now, key);
    }
  }

  // ---------------------------------------------------------------------
  // Notice images
  // ---------------------------------------------------------------------

  /** The extension kept from an uploaded name: from its last '.' on, or ""
      when the name is null or has no '.'. */
  function Extension(originalName: Option<string>): (ext: string)
    ensures ext == [] || (ext[0] == '.' && forall i :: 1 <= i < |ext| ==> ext[i] != '.')
    ensures ext != [] ==> originalName.Some? && |ext| <= |originalName.value|
                          && originalName.value[|originalName.value| - |ext|..] == ext
    ensures originalName.Some? && Contains(originalName.value, ".") ==> ext != []
  {
    if originalName.None? || !Contains(originalName.value, ".") then ""
    else
      var name := originalName.value;
      var at := LastIndexOf(name, '.');
      assert at >= 0 by {
        var i :| 0 <= i <= |name| && MatchAt(name, ".", i);
        assert name[i..i + 1][0] == name[i];
      }
      name[at..]
  }

  /** A name `stem.ext` keeps `.ext`, whatever dots the stem holds. */
  lemma ExtensionOfDotted(stem: string, ext: string)
    requires forall i :: 0 <= i < |ext| ==> ext[i] != '.'
    ensures Extension(Some(stem + "." + ext)) == "." + ext
  {
    var name := stem + "." + ext;
    assert MatchAt(name, ".", |stem|) by { assert name[|stem|..|stem| + 1] == "."; }
    assert name[|stem|] == '.';
    assert forall j :: |stem| < j < |name| ==> name[j] == ext[j - |stem| - 1];
    assert LastIndexOf(name, '.') == |stem|;
    assert name[|stem|..] == "." + ext;
  }

  /** Where a saved notice image lives, relative to the base directory. */
  function NoticeFileOnDisk(uuid: string, originalName: Option<string>): string {
    NOTICE_DIR + uuid + Extension(originalName)
  }

  /** `saveNoticeFile`: no URL for a missing or empty file; otherwise the
      image is written under `notices/` as the random name `uuid` plus the
      original extension, and its URL is returned. The copy does not
      replace: an existing file of that name makes it fail. */
  function SaveNoticeFile(disk: Disk, file: Option<FilePart>, uuid: string): (r: Result<(Option<string>, Disk)>)
    ensures NoFile(file) ==> r == Ok((None, disk))
    ensures !NoFile(file) ==>
              var onDisk := NoticeFileOnDisk(uuid, file.value.originalName);
              && (r.Err? <==> onDisk in disk)
              && (r.Err? ==> r.failure == FileError)
              && (r.Ok? ==> r.value.1 == disk + {onDisk} && r.value.0.Some?
                            && DeletionTarget(r.value.0) == Some(onDisk))
  {
    if NoFile(file) then Ok((None, disk))
    else
      var savedName := uuid + Extension(file.value.originalName);
      assert NOTICE_DIR + savedName == NoticeFileOnDisk(uuid, file.value.originalName);
      if NOTICE_DIR + savedName in disk then Err(FileError)
      else
        var url := "/uploads/notices/" + savedName;
        assert url == URL_ROOT + NoticeFileOnDisk(uuid, file.value.originalName);
        assert url[..|URL_ROOT|] == URL_ROOT;
        Ok((Some(url), disk + {NOTICE_DIR + savedName}))
  }

  /** `deleteActualFile`: the file a URL names, relative to the base
      directory; `None` for a null URL or one outside `/uploads/`. */
  function DeletionTarget(imageUrl: Option<string>): (r: Option<string>)
    ensures r.None? <==> imageUrl.None? || !StartsWith(imageUrl.value, URL_ROOT)
    ensures r.Some? ==> imageUrl.value == URL_ROOT + r.value
  {
    if imageUrl.None? || !StartsWith(imageUrl.value, URL_ROOT) then None
    else
      assert imageUrl.value == imageUrl.value[..9] + imageUrl.value[9..];
      Some(imageUrl.value[9..])
  }

  /** `deleteActualFile`: removes the file the URL names, if any;
      `deleteIfExists` does nothing for a missing file. */
  function DeleteActualFile(disk: Disk, imageUrl: Option<string>): (d: Disk)
    ensures d <= disk
    ensures DeletionTarget(imageUrl).None? ==> d == disk
    ensures DeletionTarget(imageUrl).Some? ==> d == disk - {DeletionTarget(imageUrl).value}
  {
    match DeletionTarget(imageUrl)
    case None => disk
    case Some(path) => disk - {path}
  }

  /** Deleting the URL a save returned removes exactly the file it wrote. */
  lemma SavedImageIsDeletable(disk: Disk, file: Option<FilePart>, uuid: string)
    requires !NoFile(file) && SaveNoticeFile(disk, file, uuid).Ok?
    ensures var r := SaveNoticeFile(disk, file, uuid).value;
            DeleteActualFile(r.1, r.0) == disk - {NoticeFileOnDisk(uuid, file.value.originalName)}
  {
  }

  // ---------------------------------------------------------------------
  // Notices
  // ---------------------------------------------------------------------

  datatype Notice = Notice(id: int, title: string, content: string, imageUrl: Option<string>,
                           noticeType: string, createdAt: Instant)

  datatype Board = Board(notices: seq<Notice>, disk: Disk)

  const NOTICE := "NOTICE"

  function FindNotice(notices: seq<Notice>, id: int): (r: Option<nat>)
    ensures r.Some? ==> r.value < |notices| && notices[r.value].id == id
                        && forall j :: 0 <= j < r.value ==> notices[j].id != id
    ensures r.None? ==> forall j :: 0 <= j < |notices| ==> notices[j].id != id
    decreases |notices|
  {
    if notices == [] then None
    else if notices[0].id == id then Some(0)
    else match FindNotice(notices[1..], id)
      case None => None
      case Some(k) => Some(k + 1)
  }

  /** `getNoticeById`: the notice, or IllegalArgumentException for an
      unknown id. */
  function GetNotice(notices: seq<Notice>, id: int): (r: Result<Notice>)
    ensures r.Err? <==> forall j :: 0 <= j < |notices| ==> notices[j].id != id
    ensures r.Err? ==> r.failure == IllegalArgument
    ensures r.Ok? ==> r.value in notices && r.value.id == id
  {
    match FindNotice(notices, id)
    case None => Err(IllegalArgument)
    case Some(i) => Ok(notices[i])
  }

  /** `getAllNotices`: the notices of type "NOTICE" (newest first in the
      source; the order is not modelled). */
  function AllNotices(notices: seq<Notice>): (r: seq<Notice>)
    ensures forall n :: n in r <==> n in notices && n.noticeType == NOTICE
  {
    Filter(notices, (n: Notice) => n.noticeType == NOTICE)
  }

  /** `saveNoticeWithFile`: saves the image (if any), then one new notice
      under a fresh id carrying its URL. */
  function SaveNotice(b: Board, title: string, content: string, file: Option<FilePart>, uuid: string,
                      noticeType: string, now: Instant): (r: Result<(Notice, Board)>)
    ensures r.Err? <==> SaveNoticeFile(b.disk, file, uuid).Err?
    ensures r.Ok? ==>
              var n := r.value.0;
              && r.value.1.notices == b.notices + [n]
              && (forall j :: 0 <= j < |b.notices| ==> b.notices[j].id != n.id)
              && n.title == title && n.content == content && n.noticeType == noticeType && n.createdAt == now
              && (n.imageUrl.None? <==> NoFile(file))
              && n.imageUrl == SaveNoticeFile(b.disk, file, uuid).value.0
              && r.value.1.disk == SaveNoticeFile(b.disk, file, uuid).value.1
  {
    match SaveNoticeFile(b.disk, file, uuid)
    case Err(e) => Err(e)
    case Ok((url, disk)) =>
      var n := Notice(NextKey(Map(b.notices, (x: Notice) => x.id)), title, content, url, noticeType, now);
      Ok((n, Board(b.notices + [n], disk)))
  }

  /** `updateNoticeWithFile`: IllegalArgumentException for an unknown id;
      otherwise the title and content are replaced and, when a file came
      with the request, the old image is deleted and the new one saved.
      The result comes with the board afterwards. When the save fails the
      transaction rolls the notice back, but the old image is already off
      the disk. */
  function UpdateNotice(b: Board, id: int, title: string, content: string, file: Option<FilePart>,
                        uuid: string): (r: (Result<Notice>, Board))
    ensures (forall j :: 0 <= j < |b.notices| ==> b.notices[j].id != id) ==> r == (Err(IllegalArgument), b)
    ensures FindNotice(b.notices, id).Some? ==>
              var i := FindNotice(b.notices, id).value;
              var old_ := b.notices[i];
              var d := DeleteActualFile(b.disk, old_.imageUrl);
              && (NoFile(file) ==>
                    r == (Ok(old_.(title := title, content := content)),
                          Board(b.notices[i := old_.(title := title, content := content)], b.disk)))
              && (!NoFile(file) && SaveNoticeFile(d, file, uuid).Err? ==>
                    && r.0 == Err(FileError) && r.1 == Board(b.notices, d)
                    // the notice still links an image that is gone
                    && (DeletionTarget(old_.imageUrl).Some? ==> DeletionTarget(old_.imageUrl).value !in r.1.disk))
              && (!NoFile(file) && SaveNoticeFile(d, file, uuid).Ok? ==>
                    var n := old_.(title := title, content := content, imageUrl := SaveNoticeFile(d, file, uuid).value.0);
                    r == (Ok(n), Board(b.notices[i := n], SaveNoticeFile(d, file, uuid).value.1)))
  {
    match FindNotice(b.notices, id)
    case None => (Err(IllegalArgument), b)
    case Some(i) =>
      var n := b.notices[i].(title := title, content := content);
      if NoFile(file) then (Ok(n), Board(b.notices[i := n], b.disk))
      else
        var d := DeleteActualFile(b.disk, n.imageUrl);
        match SaveNoticeFile(d, file, uuid)
        case Err(e) => (Err(e), Board(b.notices, d))
        case Ok((url, disk)) =>
          var m := n.(imageUrl := url);
          (Ok(m), Board(b.notices[i := m], disk))
  }

  /** `deleteNotice`: IllegalArgumentException for an unknown id;
      otherwise the notice's image file and the notice go. */
  function DeleteNotice(b: Board, id: int): (r: Result<Board>)
    ensures r.Err? <==> forall j :: 0 <= j < |b.notices| ==> b.notices[j].id != id
    ensures r.Err? ==> r.failure == IllegalArgument
    ensures r.Ok? ==>
              var i := FindNotice(b.notices, id).value;
              && r.value.notices == b.notices[..i] + b.notices[i + 1..]
              && r.value.disk == DeleteActualFile(b.disk, b.notices[i].imageUrl)
  {
    match FindNotice(b.notices, id)
    case None => Err(IllegalArgument)
    case Some(i) => Ok(Board(b.notices[..i] + b.notices[i + 1..], DeleteActualFile(b.disk, b.notices[i].imageUrl)))
  }

  /** Deleting the URL a save returned leaves the upload directory as it
      was before the save. */
  lemma SaveThenDeleteFile(disk: Disk, file: Option<FilePart>, uuid: string)
    requires SaveNoticeFile(disk, file, uuid).Ok?
    ensures var r := SaveNoticeFile(disk, file, uuid).value;
            DeleteActualFile(r.1, r.0) == disk
  {
    if !NoFile(file) {
      var onDisk := NoticeFileOnDisk(uuid, file.value.originalName);
      SavedImageIsDeletable(disk, file, uuid);
      assert onDisk !in disk;
      assert disk + {onDisk} - {onDisk} == disk;
    }
  }

  /** Posting a notice and deleting it again leaves the board and the
      upload directory as they were. */
  lemma DeleteUndoesSave(b: Board, title: string, content: string, file: Option<FilePart>, uuid: string,
                         noticeType: string, now: Instant)
    requires SaveNotice(b, title, content, file, uuid, noticeType, now).Ok?
    ensures var r := SaveNotice(b, title, content, file, uuid, noticeType, now).value;
            DeleteNotice(r.1, r.0.id) == Ok(b)
  {
    var r := SaveNotice(b, title, content, file, uuid, noticeType, now).value;
    var n := r.0;
    var after := r.1;
    var i := |b.notices|;
    assert after.notices[i] == n;
    assert FindNotice(after.notices, n.id) == Some(i);
    assert after.notices[..i] + after.notices[i + 1..] == b.notices;
    SaveThenDeleteFile(b.disk, file, uuid);
    assert DeleteActualFile(after.disk, n.imageUrl) == b.disk;
  }

  // ---------------------------------------------------------------------
  // NoticeController.subscribe
  // ---------------------------------------------------------------------

  /** The user a subscription identifier names: by email when it holds an
      '@', otherwise by numeric id. An unknown user and a malformed number
      are both IllegalArgumentException. */
  function ResolveSubscriber(users: seq<User>, identifier: string): (r: Result<int>)
    ensures r.Err? ==> r.failure == IllegalArgument
    ensures Contains(identifier, "@") ==>
              (r.Ok? <==> FindByEmail(users, identifier).Some?)
              && (r.Ok? ==> r.value == FindByEmail(users, identifier).value.id)
    ensures !Contains(identifier, "@") ==>
              (r.Ok? <==> ParseLong(identifier).Ok? && FindById(users, ParseLong(identifier).value).Some?)
              && (r.Ok? ==> r.value == ParseLong(identifier).value)
    ensures r.Ok? ==> exists i :: 0 <= i < |users| && users[i].id == r.value
  {
    if Contains(identifier, "@") then
      match FindByEmail(users, identifier)
      case None => Err(IllegalArgument)
      case Some(u) => Ok(u.id)
    else
      match ParseLong(identifier)
      case Err(_) => Err(IllegalArgument)
      case Ok(id) =>
        match FindById(users, id)
        case None => Err(IllegalArgument)
        case Some(u) => Ok(u.id)
  }

  /** A user is reached the same way by email and by decimal id. */
  lemma EitherIdentifierReachesUser(users: seq<User>, i: int)
    requires 0 <= i < |users| && LONG_MIN <= users[i].id <= LONG_MAX
    requires Contains(users[i].email, "@")
    requires forall j :: 0 <= j < |users| && j != i ==> users[j].id != users[i].id && users[j].email != users[i].email
    ensures ResolveSubscriber(users, users[i].email) == Ok(users[i].id)
    ensures ResolveSubscriber(users, IntToString(users[i].id)) == Ok(users[i].id)
  {
    ParseLongOfIntToString(users[i].id);
    IntToStringHasNoAt(users[i].id);
  }

  /** A decimal number holds no '@'. */
  lemma IntToStringHasNoAt(n: int)
    ensures !Contains(IntToString(n), "@")
  {
    var s := IntToString(n);
    forall j | 0 <= j <= |s| ensures !MatchAt(s, "@", j) {
      if j + 1 <= |s| {
        assert s[j..j + 1][0] == s[j];
      }
    }
  }
}
