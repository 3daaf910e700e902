/**
 * The best-difficulty history of the `best` command: a list of
 * (timestamp, best) records that grows by one record when the device reports
 * a parsable best difficulty different from the last stored one, and that is
 * shown ranked by value, highest first, ties in stored order.
 */
module History {
  import opened Options
  import opened Device
  import opened Difficulty

  /** One stored entry; `best` is None when the stored object has no "best" key. */
  datatype Record = Record(timestamp: string, best: Option<real>)

  /** The ranking key `rec.get("best", 0)`: a record without a value ranks as 0. */
  function Key(r: Record): real {
    r.best.GetOr(0.0)
  }

  /** The history after the `best` command has read `bestDiff` at time `now`:
      at most one record more, the stored ones untouched, and the new record
      only for a parsable reading that differs from the last stored value. */
  function AppendBest(h: seq<Record>, bestDiff: string, now: string): (r: seq<Record>)
    ensures |h| <= |r| <= |h| + 1 && r[..|h|] == h
    ensures |r| == |h| + 1 <==>
      && bestDiff != "N/A"
      && ParseValue(bestDiff).Some?
      && (h == [] || h[|h| - 1].best != ParseValue(bestDiff))
    ensures |r| == |h| + 1 ==> r[|h|] == Record(now, ParseValue(bestDiff))
  {
    var numeric := ParseValue(bestDiff);
    if bestDiff != "N/A" && numeric.Some? && (h == [] || h[|h| - 1].best != numeric) then
      h + [Record(now, numeric)]
    else
      h
  }

  /** The invariant of the stored history: no two neighbours hold
      the same value. */
  ghost predicate NoRepeats(h: seq<Record>) {
    forall i :: 0 < i < |h| ==> h[i - 1].best != h[i].best
  }

  /** Appending keeps the no-repeats invariant. */
  lemma AppendKeepsNoRepeats(h: seq<Record>, bestDiff: string, now: string)
    requires NoRepeats(h)
    ensures NoRepeats(AppendBest(h, bestDiff, now))
  {
    var r := AppendBest(h, bestDiff, now);
    forall i | 0 < i < |r| ensures r[i - 1].best != r[i].best {
      if i < |h| { assert r[i - 1] == h[i - 1] && r[i] == h[i]; }
      else { assert r[i - 1] == h[|h| - 1]; }
    }
  }

  /** A second reading that parses to the same value as the first adds
      nothing, however the two texts are spelled: the comparison is on the
      parsed value, not on the text. */
  lemma AppendIdempotent(h: seq<Record>, first: string, again: string, now: string, later: string)
    requires ParseValue(again) == ParseValue(first)
    ensures AppendBest(AppendBest(h, first, now), again, later) == AppendBest(h, first, now)
  {
    ParseExamplesRejected();
    var once := AppendBest(h, first, now);
    if |once| == |h| + 1 {
      assert once[|once| - 1].best == ParseValue(first);
    }
  }

  /** One run of the `best` command: the text it read and the time it ran. */
  datatype Reading = Reading(bestDiff: string, now: string)

  /** The history after the command has run once for each of `readings`. */
  function AppendEach(h: seq<Record>, readings: seq<Reading>): seq<Record>
    decreases |readings|
  {
    if readings == [] then h
    else AppendEach(AppendBest(h, readings[0].bestDiff, readings[0].now), readings[1..])
  }

  /** Readings that all parse to one value store it at most once: exactly
      once when the first reading is stored, never otherwise. */
  lemma {:induction false} AppendRepeated(h: seq<Record>, readings: seq<Reading>)
    requires readings != []
    requires forall i :: 0 <= i < |readings| ==> ParseValue(readings[i].bestDiff) == ParseValue(readings[0].bestDiff)
    ensures AppendEach(h, readings) == AppendBest(h, readings[0].bestDiff, readings[0].now)
    decreases |readings|
  {
    if |readings| > 1 {
      var once := AppendBest(h, readings[0].bestDiff, readings[0].now);
      AppendIdempotent(h, readings[0].bestDiff, readings[1].bestDiff, readings[0].now, readings[1].now);
      var rest := readings[1..];
      assert forall i :: 0 <= i < |rest| ==> rest[i] == readings[i + 1];
      AppendRepeated(once, rest);
    }
  }

  /** "568M" and then "568.0M" store one record: both are 568000000. The
      new-best alert, which compares the texts, announces both
      (`Alerts.NewBestOnRespelling`). */
  lemma RespellingStoredOnce(h: seq<Record>, now: string, later: string)
    ensures AppendBest(AppendBest(h, "568M", now), "568.0M", later) == AppendBest(h, "568M", now)
  {
    ParseExampleMillions();
    ParseExampleMillionsPoint();
    AppendIdempotent(h, "568M", "568.0M", now, later);
  }

  // ---------------------------------------------------------------------
  // Ranking: sorted(history, key=lambda rec: rec.get("best", 0), reverse=True)

  /** Non-increasing by key. */
  ghost predicate Descending(s: seq<Record>) {
    forall i, j :: 0 <= i < j < |s| ==> Key(s[i]) >= Key(s[j])
  }

  /** The records of `s` whose key is `k`, in their order in `s`. */
  function WithKey(s: seq<Record>, k: real): seq<Record> {
    if s == [] then [] else (if Key(s[0]) == k then [s[0]] else []) + WithKey(s[1..], k)
  }

  /** Puts `x` before the first record whose key does not exceed its own. */
  function Insert(x: Record, s: seq<Record>): (r: seq<Record>)
    ensures multiset(r) == multiset(s) + multiset{x}
  {
    if s == [] || Key(s[0]) <= Key(x) then [x] + s
    else
      assert s == [s[0]] + s[1..];
      [s[0]] + Insert(x, s[1..])
  }

  /** The ranked history: a permutation of the history. */
  function RankDescending(h: seq<Record>): (r: seq<Record>)
    ensures multiset(r) == multiset(h)
  {
    if h == [] then []
    else
      assert h == [h[0]] + h[1..];
      Insert(h[0], RankDescending(h[1..]))
  }

  /** Prepending a record whose key is at least every key of `t` keeps it
      highest first. */
  lemma ConsDescending(y: Record, t: seq<Record>)
    requires Descending(t)
    requires forall j :: 0 <= j < |t| ==> Key(t[j]) <= Key(y)
    ensures Descending([y] + t)
  {
    var r := [y] + t;
    forall i, j | 0 <= i < j < |r| ensures Key(r[i]) >= Key(r[j]) {
      assert r[j] == t[j - 1];
      if i > 0 { assert r[i] == t[i - 1]; }
    }
  }

  /** The rest of a ranking is a ranking whose keys stay below its head. */
  lemma DescendingTail(s: seq<Record>)
    requires s != [] && Descending(s)
    ensures Descending(s[1..])
    ensures forall j :: 0 <= j < |s[1..]| ==> Key(s[1..][j]) <= Key(s[0])
  {
    forall j | 0 <= j < |s[1..]| ensures Key(s[1..][j]) <= Key(s[0]) {
      assert s[1..][j] == s[j + 1];
    }
  }

  /** Inserting keeps every key within a bound that `x` and `s` respect. */
  lemma {:induction false} InsertBounded(x: Record, s: seq<Record>, b: real)
    requires Key(x) <= b
    requires forall j :: 0 <= j < |s| ==> Key(s[j]) <= b
    ensures forall j :: 0 <= j < |Insert(x, s)| ==> Key(Insert(x, s)[j]) <= b
  {
    if s != [] && Key(s[0]) > Key(x) {
      forall j | 0 <= j < |s[1..]| ensures Key(s[1..][j]) <= b {
        assert s[1..][j] == s[j + 1];
      }
      InsertBounded(x, s[1..], b);
      var r := [s[0]] + Insert(x, s[1..]);
      forall j | 0 <= j < |r| ensures Key(r[j]) <= b {
        if j > 0 { assert r[j] == Insert(x, s[1..])[j - 1]; }
      }
    } else {
      var r := [x] + s;
      forall j | 0 <= j < |r| ensures Key(r[j]) <= b {
        if j > 0 { assert r[j] == s[j - 1]; }
      }
    }
  }

  /** Inserting into a ranking gives a ranking. */
  lemma {:induction false} InsertDescending(x: Record, s: seq<Record>)
    requires Descending(s)
    ensures Descending(Insert(x, s))
  {
    if s != [] && Key(s[0]) > Key(x) {
      DescendingTail(s);
      InsertDescending(x, s[1..]);
      InsertBounded(x, s[1..], Key(s[0]));
      ConsDescending(s[0], Insert(x, s[1..]));
    } else {
      ConsDescending(x, s);
    }
  }

  /** The ranking is highest first. */
  lemma {:induction false} RankIsDescending(h: seq<Record>)
    ensures Descending(RankDescending(h))
  {
    if h != [] {
      RankIsDescending(h[1..]);
      InsertDescending(h[0], RankDescending(h[1..]));
    }
  }

  lemma WithKeyCons(x: Record, s: seq<Record>, k: real)
    ensures WithKey([x] + s, k) == (if Key(x) == k then [x] else []) + WithKey(s, k)
  {
    assert ([x] + s)[0] == x && ([x] + s)[1..] == s;
  }

  /** Inserting `x` puts it ahead of every record with the same key. */
  lemma {:induction false} InsertWithKey(x: Record, s: seq<Record>, k: real)
    ensures WithKey(Insert(x, s), k) == (if Key(x) == k then [x] else []) + WithKey(s, k)
  {
    if s == [] || Key(s[0]) <= Key(x) {
      WithKeyCons(x, s, k);
    } else {
      InsertWithKey(x, s[1..], k);
      WithKeyCons(s[0], Insert(x, s[1..]), k);
      WithKeyCons(s[0], s[1..], k);
      assert s == [s[0]] + s[1..];
    }
  }

  /** The ranking is stable: the records of any one value keep their stored order. */
  lemma {:induction false} RankIsStable(h: seq<Record>, k: real)
    ensures WithKey(RankDescending(h), k) == WithKey(h, k)
  {
    if h != [] {
      RankIsStable(h[1..], k);
      InsertWithKey(h[0], RankDescending(h[1..]), k);
    }
  }

  /** The history as the `best` command keeps it. */
  class HistoryStore {
    /** The records of the history file. */
    var records: seq<Record>

    /** load_history: the stored records, or none when there is no file yet. */
    constructor (stored: seq<Record>)
      ensures records == stored
    {
      records := stored;
    }

    /** The `best` command on one poll. When the device is unreachable the
        command only replies with an error. Otherwise the history is extended
        as AppendBest says and the ranked history is returned for display. */
    method Best(snap: Snapshot, now: string) returns (ranked: Option<seq<Record>>)
      modifies this
      ensures snap.Unreachable? ==> ranked.None? && records == old(records)
      ensures snap.Present? ==> records == AppendBest(old(records), snap.bestDiff, now)
      ensures snap.Present? ==> ranked == Some(RankDescending(records))
    {
      if snap.Unreachable? {
        return None;
      }
      var numeric := ParseValue(snap.bestDiff);
      if snap.bestDiff != "N/A" && numeric.Some? {
        if records == [] || records[|records| - 1].best != numeric {
          records := records + [Record(now, numeric)];
        }
      }
      ranked := Some(RankDescending(records));
    }
  }
}
