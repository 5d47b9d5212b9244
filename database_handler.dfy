/**
 * The audio record store of the bot: an SQLite file with a `Users` table
 * (u_id primary key) and an `Audios` table (a_id primary key, a_name,
 * a_path, u_id). The tables are abstracted to a set of user ids and a
 * sequence of audio rows in insertion order; join and creation timestamps
 * are not kept.
 */
module Database {
  import opened Wrappers
  import Decimal

  /** One row of the `Audios` table (its timestamp column is left out). */
  datatype AudioRow = AudioRow(aId: string, aName: string, aPath: string, uId: int)

  /** `f'audio_message_{n}'`, where `n` is what the count query returned;
      Python renders a missing count as "None". */
  function AudioName(count: Option<nat>): (name: string)
    ensures |name| > 14 && name[..14] == "audio_message_"
  {
    var suffix := match count {
      case None => "None"
      case Some(n) => Decimal.NatToString(n)
    };
    "audio_message_" + suffix
  }

  /** `f'/data/{user_id}/audio_data/{name}.wav'`. */
  function AudioPath(userId: int, name: string): (path: string)
    ensures |path| == |Decimal.IntToString(userId)| + |name| + 22
    ensures path[..6] == "/data/" && path[|path| - 4..] == ".wav"
    ensures path[|path| - 4 - |name|..|path| - 4] == name
  {
    "/data/" + Decimal.IntToString(userId) + "/audio_data/" + name + ".wav"
  }

  /** The position of the first '/' in `p` at or after `i` (`|p|` if none). */
  function FirstSlash(p: string, i: nat): (j: nat)
    requires i <= |p|
    ensures i <= j <= |p|
    decreases |p| - i
  {
    if i == |p| then |p| else if p[i] == '/' then i else FirstSlash(p, i + 1)
  }

  lemma {:induction false} FirstSlashAt(p: string, i: nat, j: nat)
    requires i <= j < |p| && p[j] == '/'
    requires forall k :: i <= k < j ==> p[k] != '/'
    ensures FirstSlash(p, i) == j
    decreases j - i
  {
    if i < j { FirstSlashAt(p, i + 1, j); }
  }

  /** The user id segment of a path ends at the first '/' after "/data/". */
  lemma AudioPathUserSegment(userId: int, name: string)
    ensures FirstSlash(AudioPath(userId, name), 6) == 6 + |Decimal.IntToString(userId)|
  {
    var u := Decimal.IntToString(userId);
    var p := AudioPath(userId, name);
    assert p == "/data/" + u + "/audio_data/" + name + ".wav";
    Decimal.IntToStringHasNoSlash(userId);
    assert forall k :: 6 <= k < 6 + |u| ==> p[k] == u[k - 6];
    FirstSlashAt(p, 6, 6 + |u|);
  }

  /** The user id segment of a path is delimited by '/', so a stored path
      determines both the owner and the name. */
  lemma AudioPathInjective(u1: int, n1: string, u2: int, n2: string)
    ensures AudioPath(u1, n1) == AudioPath(u2, n2) <==> u1 == u2 && n1 == n2
  {
    if AudioPath(u1, n1) == AudioPath(u2, n2) {
      var s1, s2 := Decimal.IntToString(u1), Decimal.IntToString(u2);
      var p := AudioPath(u1, n1);
      assert p == "/data/" + s1 + "/audio_data/" + n1 + ".wav";
      assert p == "/data/" + s2 + "/audio_data/" + n2 + ".wav";
      AudioPathUserSegment(u1, n1);
      AudioPathUserSegment(u2, n2);
      assert |s1| == |s2|;
      assert s1 == p[6..6 + |s1|] == s2;
      Decimal.IntToStringInjective(u1, u2);
      assert n1 == p[18 + |s1|..|p| - 4] == n2;
    }
  }

  /** `SELECT COUNT(*) FROM Audios WHERE u_id = ?`. */
  function CountFor(rows: seq<AudioRow>, userId: int): (n: nat)
    ensures n <= |rows|
  {
    if rows == [] then 0
    else (if rows[0].uId == userId then 1 else 0) + CountFor(rows[1..], userId)
  }

  /** The positions of the rows owned by `userId`: an independent
      description of what the count query counts. */
  ghost function OwnedIndices(rows: seq<AudioRow>, userId: int): set<nat> {
    set i: nat | i < |rows| && rows[i].uId == userId
  }

  predicate HasAudioId(rows: seq<AudioRow>, aId: string) {
    exists i :: 0 <= i < |rows| && rows[i].aId == aId
  }

  /** The `a_id` primary key: no two rows share an id. */
  predicate UniqueIds(rows: seq<AudioRow>) {
    forall i, j :: 0 <= i < j < |rows| ==> rows[i].aId != rows[j].aId
  }

  /** The name `postUserAudio` hands out for `userId`, once the tables exist. */
  function PostedName(rows: seq<AudioRow>, userId: int): string {
    AudioName(Some(CountFor(rows, userId)))
  }

  /** The row `postUserAudio` builds for `userId` with the fresh id `aId`. */
  function PostedRow(rows: seq<AudioRow>, userId: int, aId: string): AudioRow {
    var name := PostedName(rows, userId);
    AudioRow(aId, name, AudioPath(userId, name), userId)
  }

  /** `Audios` after `INSERT OR IGNORE` of the posted row: a row whose id is
      already present is ignored. */
  function PostedRows(rows: seq<AudioRow>, userId: int, aId: string): (post: seq<AudioRow>)
    ensures rows <= post
    ensures |post| == |rows| + (if HasAudioId(rows, aId) then 0 else 1)
  {
    if HasAudioId(rows, aId) then rows else rows + [PostedRow(rows, userId, aId)]
  }

  /** The counts read by successive `postUserAudio(userId)` calls that
      draw the ids `aIds` in order: each call reads the count left by the
      calls before it. */
  function PostedCounts(rows: seq<AudioRow>, userId: int, aIds: seq<string>): (counts: seq<nat>)
    ensures |counts| == |aIds|
    decreases |aIds|
  {
    if aIds == [] then []
    else [CountFor(rows, userId)] + PostedCounts(PostedRows(rows, userId, aIds[0]), userId, aIds[1..])
  }

  /** The names those calls return, each built from the count it read. */
  function PostedNames(rows: seq<AudioRow>, userId: int, aIds: seq<string>): (names: seq<string>)
    ensures |names| == |aIds|
  {
    var counts := PostedCounts(rows, userId, aIds);
    seq(|aIds|, k requires 0 <= k < |aIds| => AudioName(Some(counts[k])))
  }

  predicate Distinct<T(==)>(s: seq<T>) {
    forall i, j :: 0 <= i < j < |s| ==> s[i] != s[j]
  }

  lemma {:induction false} CountForAppend(rows: seq<AudioRow>, r: AudioRow, userId: int)
    ensures CountFor(rows + [r], userId) == CountFor(rows, userId) + (if r.uId == userId then 1 else 0)
  {
    if rows != [] {
      assert (rows + [r])[1..] == rows[1..] + [r];
      CountForAppend(rows[1..], r, userId);
    }
  }

  lemma {:induction false} CountForZero(rows: seq<AudioRow>, userId: int)
    ensures CountFor(rows, userId) == 0 <==> forall i :: 0 <= i < |rows| ==> rows[i].uId != userId
  {
    if rows != [] {
      CountForZero(rows[1..], userId);
      assert forall i :: 1 <= i < |rows| ==> rows[i] == rows[1..][i - 1];
    }
  }

  lemma {:induction false} CountForIsOwnedIndices(rows: seq<AudioRow>, userId: int)
    ensures CountFor(rows, userId) == |OwnedIndices(rows, userId)|
    decreases |rows|
  {
    if rows != [] {
      var init, last := rows[..|rows| - 1], rows[|rows| - 1];
      assert rows == init + [last];
      CountForIsOwnedIndices(init, userId);
      CountForAppend(init, last, userId);
      var before := OwnedIndices(init, userId);
      if last.uId == userId {
        assert OwnedIndices(rows, userId) == before + {|init|};
      } else {
        assert OwnedIndices(rows, userId) == before;
      }
    }
  }

  /** Posting for `userId` adds one to its count and leaves every other
      user's count alone, provided the drawn id is fresh. */
  lemma PostedRowsCounts(rows: seq<AudioRow>, userId: int, aId: string, other: int)
    requires !HasAudioId(rows, aId)
    ensures CountFor(PostedRows(rows, userId, aId), userId) == CountFor(rows, userId) + 1
    ensures other != userId ==> CountFor(PostedRows(rows, userId, aId), other) == CountFor(rows, other)
  {
    CountForAppend(rows, PostedRow(rows, userId, aId), userId);
    CountForAppend(rows, PostedRow(rows, userId, aId), other);
  }

  /** Exactly one row is appended, and it stores the returned name and the
      path derived from it. */
  lemma PostedRowsAppend(rows: seq<AudioRow>, userId: int, aId: string)
    requires !HasAudioId(rows, aId)
    ensures var post := PostedRows(rows, userId, aId);
      |post| == |rows| + 1 && post[..|rows|] == rows &&
      post[|rows|].aId == aId && post[|rows|].uId == userId &&
      post[|rows|].aName == PostedName(rows, userId) &&
      post[|rows|].aPath == "/data/" + Decimal.IntToString(userId) + "/audio_data/" + PostedName(rows, userId) + ".wav"
  {
  }

  /** A colliding id is ignored by `INSERT OR IGNORE`: no row is added. */
  lemma PostedRowsDuplicateId(rows: seq<AudioRow>, userId: int, aId: string, i: nat)
    requires i < |rows| && rows[i].aId == aId
    ensures PostedRows(rows, userId, aId) == rows
  {
  }

  lemma PostedRowsKeepsUniqueIds(rows: seq<AudioRow>, userId: int, aId: string)
    requires UniqueIds(rows)
    ensures UniqueIds(PostedRows(rows, userId, aId))
  {
  }

  /** None of `aIds` is already the id of a row. */
  predicate AllFresh(rows: seq<AudioRow>, aIds: seq<string>) {
    forall k :: 0 <= k < |aIds| ==> !HasAudioId(rows, aIds[k])
  }

  lemma FreshAfterPost(rows: seq<AudioRow>, userId: int, aIds: seq<string>)
    requires |aIds| > 0 && Distinct(aIds) && AllFresh(rows, aIds)
    ensures Distinct(aIds[1..]) && AllFresh(PostedRows(rows, userId, aIds[0]), aIds[1..])
  {
    var next := PostedRows(rows, userId, aIds[0]);
    forall k | 0 <= k < |aIds| - 1
      ensures !HasAudioId(next, aIds[1..][k])
    {
      assert aIds[1..][k] == aIds[k + 1] != aIds[0];
      assert !HasAudioId(rows, aIds[k + 1]);
    }
  }

  /** The k-th of a series of posts with fresh, distinct ids reads the
      count c + k, where c is the user's count before the series. */
  lemma {:induction false} PostedCountAt(rows: seq<AudioRow>, userId: int, aIds: seq<string>, k: nat)
    requires Distinct(aIds) && AllFresh(rows, aIds)
    requires k < |aIds|
    ensures PostedCounts(rows, userId, aIds)[k] == CountFor(rows, userId) + k
    decreases k
  {
    if k > 0 {
      var next := PostedRows(rows, userId, aIds[0]);
      assert PostedCounts(rows, userId, aIds)[k] == PostedCounts(next, userId, aIds[1..])[k - 1];
      PostedRowsCounts(rows, userId, aIds[0], userId);
      FreshAfterPost(rows, userId, aIds);
      PostedCountAt(next, userId, aIds[1..], k - 1);
    }
  }

  /** The k-th of such a series returns the name built from c + k. */
  lemma PostedNameAt(rows: seq<AudioRow>, userId: int, aIds: seq<string>, k: nat)
    requires Distinct(aIds) && AllFresh(rows, aIds)
    requires k < |aIds|
    ensures PostedNames(rows, userId, aIds)[k] == AudioName(Some(CountFor(rows, userId) + k))
  {
    PostedCountAt(rows, userId, aIds, k);
    assert PostedNames(rows, userId, aIds)[k] == AudioName(Some(PostedCounts(rows, userId, aIds)[k]));
  }

  /** Names are sequential per user: a series of posts with fresh,
      distinct ids returns `audio_message_<c>`, `audio_message_<c+1>`, …,
      where c is the user's count before the series. */
  lemma PostedNamesSequential(rows: seq<AudioRow>, userId: int, aIds: seq<string>)
    requires Distinct(aIds) && AllFresh(rows, aIds)
    ensures |PostedNames(rows, userId, aIds)| == |aIds|
    ensures forall k :: 0 <= k < |aIds| ==>
      PostedNames(rows, userId, aIds)[k] == AudioName(Some(CountFor(rows, userId) + k))
  {
    forall k | 0 <= k < |aIds|
      ensures PostedNames(rows, userId, aIds)[k] == AudioName(Some(CountFor(rows, userId) + k))
    {
      PostedNameAt(rows, userId, aIds, k);
    }
  }

  /** Two names for distinct counts differ, and no counted name is the
      `audio_message_None` produced when the count query failed. */
  lemma AudioNameInjective(a: Option<nat>, b: Option<nat>)
    ensures AudioName(a) == AudioName(b) <==> a == b
  {
    if a != b {
      if a.Some? && b.Some? {
        Decimal.NatToStringInjective(a.value, b.value);
        assert AudioName(a)[14..] == Decimal.NatToString(a.value);
        assert AudioName(b)[14..] == Decimal.NatToString(b.value);
      } else if a.Some? {
        assert Decimal.IsDigit(AudioName(a)[14]);
        assert AudioName(b)[14] == 'N';
      } else {
        assert Decimal.IsDigit(AudioName(b)[14]);
        assert AudioName(a)[14] == 'N';
      }
    }
  }

  /** A user with no rows gets `audio_message_0` … `audio_message_<k-1>`,
      and these are pairwise distinct. */
  lemma PostedNamesFromScratch(rows: seq<AudioRow>, userId: int, aIds: seq<string>)
    requires forall i :: 0 <= i < |rows| ==> rows[i].uId != userId
    requires Distinct(aIds) && AllFresh(rows, aIds)
    ensures |PostedNames(rows, userId, aIds)| == |aIds|
    ensures forall k :: 0 <= k < |aIds| ==>
      PostedNames(rows, userId, aIds)[k] == "audio_message_" + Decimal.NatToString(k)
    ensures Distinct(PostedNames(rows, userId, aIds))
  {
    CountForZero(rows, userId);
    PostedNamesSequential(rows, userId, aIds);
    var names := PostedNames(rows, userId, aIds);
    forall k | 0 <= k < |aIds|
      ensures names[k] == AudioName(Some(k))
    {
      assert CountFor(rows, userId) + k == k;
    }
    forall i, j | 0 <= i < j < |names| ensures names[i] != names[j] {
      AudioNameInjective(Some(i), Some(j));
    }
  }

  /**
   * The handle on the production database file. `tables` says whether
   * `create_tables` has run on this file; until it has, every statement
   * fails with "no such table", and the source catches and prints that
   * error and carries on.
   */
  class DatabaseHandler {
    var tables: bool
    var users: set<int>
    var audios: seq<AudioRow>

    ghost predicate Valid()
      reads this
    {
      (!tables ==> users == {} && audios == []) &&
      UniqueIds(audios) &&
      (forall i :: 0 <= i < |audios| ==> audios[i].uId in users)
    }

    /** A handle on a database file that holds no tables yet. */
    constructor ()
      ensures Valid()
      ensures !tables && users == {} && audios == []
    {
      tables := false;
      users := {};
      audios := [];
    }

    /** `CREATE TABLE IF NOT EXISTS` for both tables. */
    method CreateTables()
      requires Valid()
      modifies this
      ensures Valid()
      ensures tables
      ensures old(tables) ==> users == old(users) && audios == old(audios)
      ensures !old(tables) ==> users == {} && audios == []
    {
      if !tables {
        tables, users, audios := true, {}, [];
      }
    }

    /** `INSERT OR IGNORE INTO Users`: afterwards `userId` is a user, once,
        and no other user came or went. */
    method PostNewUser(userId: int)
      requires Valid()
      modifies this
      ensures Valid()
      ensures tables == old(tables) && audios == old(audios)
      ensures tables ==> users == old(users) + {userId}
      ensures !tables ==> users == old(users)
    {
      if tables {
        users := users + {userId};
      }
    }

    /** `SELECT COUNT(*) FROM Audios WHERE u_id = ?`; `None` when the query
        fails because the tables do not exist. */
    method GetUserAudioCount(userId: int) returns (count: Option<nat>)
      ensures count.Some? <==> tables
      ensures count.Some? ==> count.value == |OwnedIndices(audios, userId)|
      ensures count == Some(0) <==> tables && forall i :: 0 <= i < |audios| ==> audios[i].uId != userId
    {
      if tables {
        count := Some(CountFor(audios, userId));
        CountForIsOwnedIndices(audios, userId);
        CountForZero(audios, userId);
      } else {
        count := None;
      }
    }

    /**
     * Registers the user if needed, reads the user's audio count `n`, and
     * inserts (or ignores, if `aId` is taken) the row named
     * `audio_message_<n>`. `aId` stands for the UUID `generate_uuid` draws.
     */
    method PostUserAudio(userId: int, aId: string) returns (name: string)
      requires Valid()
      modifies this
      ensures Valid()
      ensures tables == old(tables)
      ensures name == AudioName(if tables then Some(CountFor(old(audios), userId)) else None)
      ensures !tables ==> users == old(users) && audios == old(audios)
      ensures tables ==> userId in users && users == old(users) + {userId}
      ensures tables ==> audios == PostedRows(old(audios), userId, aId)
      ensures tables && !HasAudioId(old(audios), aId) ==>
        audios == old(audios) + [AudioRow(aId, name, AudioPath(userId, name), userId)] &&
        CountFor(audios, userId) == CountFor(old(audios), userId) + 1 &&
        forall other :: other != userId ==> CountFor(audios, other) == CountFor(old(audios), other)
    {
      PostNewUser(userId);
      var next := GetUserAudioCount(userId);
      assert next.Some? ==> next.value == CountFor(audios, userId) by {
        CountForIsOwnedIndices(audios, userId);
      }
      name := AudioName(next);
      var path := AudioPath(userId, name);
      if tables && !HasAudioId(audios, aId) {
        audios := audios + [AudioRow(aId, name, path, userId)];
      }
      if tables && !HasAudioId(old(audios), aId) {
        forall other
          ensures CountFor(audios, other) == CountFor(old(audios), other) + (if other == userId then 1 else 0)
        {
          CountForAppend(old(audios), AudioRow(aId, name, path, userId), other);
        }
      }
    }
  }
}
