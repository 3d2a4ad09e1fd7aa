/**
 The reconciler of `KenmeiClient.process_manga_entries`: walks the fetched entries
 against the previously saved title -> chapter map, builds a brand-new map of the
 titles still unread, and lists the (title, chapter) pairs to announce. The push
 itself is replaced by appending to the list; its failures are swallowed in the
 source, so they cannot change the result.
 */
module Reconciler {
  import opened Wrappers
  import opened Chapters
  import Text

  /** One element of the reading list's `entries` array, reduced to the attributes the
      reconciler reads: `title` (`None` when missing or null), the truth value of `unread`
      (false when missing) and `latestChapter`. `Malformed` is an element whose attribute
      lookup raises (it, or its `attributes`, is not an object); the loop's exception
      handler skips it. */
  datatype Entry =
    | Entry(title: Option<string>, unread: bool, latest: RawChapter)
    | Malformed

  /** A chapter to announce, and also a title -> chapter pair an entry records. */
  datatype Notification = Notification(title: string, chapter: string)

  /** The saved map from title to the last chapter announced for it. */
  type State = map<string, string>

  datatype Outcome = Outcome(state: State, notifications: seq<Notification>)

  /** What an entry records: its title and normalised chapter when it has a non-empty
      title, a usable chapter and is unread; `None` when it is skipped or read. */
  function Contribution(e: Entry): Option<Notification> {
    match e
    case Malformed => None
    case Entry(title, unread, latest) =>
      if title.None? || title.value == "" then None
      else
        match Normalize(latest)
        case None => None
        case Some(chapter) => if unread then Some(Notification(title.value, chapter)) else None
  }

  /** A pair is announced when the saved map does not already hold that chapter for the title. */
  predicate IsNews(prior: State, n: Notification) {
    Lookup(prior, n.title) != Some(n.chapter)
  }

  /** One turn of the loop over the entries. */
  function Step(acc: Outcome, e: Entry, prior: State): Outcome {
    match Contribution(e)
    case None => acc
    case Some(n) =>
      Outcome(acc.state[n.title := n.chapter],
              if IsNews(prior, n) then acc.notifications + [n] else acc.notifications)
  }

  /** What each entry records, position by position. */
  function Contributions(entries: seq<Entry>): seq<Option<Notification>> {
    seq(|entries|, i requires 0 <= i < |entries| => Contribution(entries[i]))
  }

  /** Reference view: the pairs the entries record, in entry order. */
  function Recorded(entries: seq<Entry>): seq<Notification> {
    Somes(Contributions(entries))
  }

  /** Reference view: the chapter of the last record for `title`, if there is one. */
  function LatestFor(records: seq<Notification>, title: string): Option<string>
    decreases |records|
  {
    if |records| == 0 then None
    else if records[|records| - 1].title == title then Some(records[|records| - 1].chapter)
    else LatestFor(records[..|records| - 1], title)
  }

  /** Reference view: the records that are news against `prior`, in order. */
  function Announcements(records: seq<Notification>, prior: State): seq<Notification>
    decreases |records|
  {
    if |records| == 0 then []
    else (if IsNews(prior, records[0]) then [records[0]] else []) + Announcements(records[1..], prior)
  }

  lemma RecordedConcat(a: seq<Entry>, b: seq<Entry>)
    ensures Recorded(a + b) == Recorded(a) + Recorded(b)
  {
    assert Contributions(a + b) == Contributions(a) + Contributions(b);
    SomesConcat(Contributions(a), Contributions(b));
  }

  lemma RecordedSingle(e: Entry)
    ensures Recorded([e]) == AsSeq(Contribution(e))
  {
    assert Contributions([e]) == [Contribution(e)];
    SomesSingle(Contribution(e));
  }

  lemma RecordedAppend(entries: seq<Entry>, e: Entry)
    ensures Recorded(entries + [e]) == Recorded(entries) + AsSeq(Contribution(e))
  {
    RecordedConcat(entries, [e]);
    RecordedSingle(e);
  }

  lemma {:induction false} AnnouncementsConcat(a: seq<Notification>, b: seq<Notification>, prior: State)
    ensures Announcements(a + b, prior) == Announcements(a, prior) + Announcements(b, prior)
    decreases |a|
  {
    if |a| > 0 {
      assert (a + b)[1..] == a[1..] + b;
      AnnouncementsConcat(a[1..], b, prior);
    } else {
      assert a + b == b;
    }
  }

  lemma LatestForAppend(records: seq<Notification>, n: Notification, t: string)
    ensures LatestFor(records + [n], t) == if n.title == t then Some(n.chapter) else LatestFor(records, t)
  {
    assert (records + [n])[..|records|] == records;
  }

  lemma AnnouncementsSingle(n: Notification, prior: State)
    ensures Announcements([n], prior) == if IsNews(prior, n) then [n] else []
  {
    assert [n][1..] == [];
  }

  /** One turn of the loop keeps the reference description of the partial result. */
  lemma StepKeepsSpec(init: seq<Entry>, e: Entry, prior: State, acc: Outcome)
    requires forall t :: Lookup(acc.state, t) == LatestFor(Recorded(init), t)
    requires acc.notifications == Announcements(Recorded(init), prior)
    ensures forall t :: Lookup(Step(acc, e, prior).state, t) == LatestFor(Recorded(init + [e]), t)
    ensures Step(acc, e, prior).notifications == Announcements(Recorded(init + [e]), prior)
  {
    RecordedAppend(init, e);
    var c := Contribution(e);
    var records := Recorded(init);
    if c.Some? {
      var n := c.value;
      assert Recorded(init + [e]) == records + [n];
      forall t
        ensures Lookup(Step(acc, e, prior).state, t) == LatestFor(Recorded(init + [e]), t)
      {
        LatestForAppend(records, n, t);
      }
      AnnouncementsConcat(records, [n], prior);
      AnnouncementsSingle(n, prior);
    } else {
      assert Recorded(init + [e]) == records;
    }
  }

  /** The loop of `process_manga_entries`: starts from an empty map (never the saved
      one), keeps the last recorded chapter of every title, and announces, in entry
      order, every record that is news against the saved map. */
  function Reconcile(entries: seq<Entry>, prior: State): (r: Outcome)
    ensures forall t :: Lookup(r.state, t) == LatestFor(Recorded(entries), t)
    ensures r.notifications == Announcements(Recorded(entries), prior)
    decreases |entries|
  {
    if |entries| == 0 then Outcome(map[], [])
    else
      var init := entries[..|entries| - 1];
      var last := entries[|entries| - 1];
      assert entries == init + [last];
      var acc := Reconcile(init, prior);
      StepKeepsSpec(init, last, prior, acc);
      Step(acc, last, prior)
  }

  /** `e` records a chapter for `title`. */
  predicate RecordsTitle(e: Entry, title: string) {
    Contribution(e).Some? && Contribution(e).value.title == title
  }

  /** A pair is among the records exactly when some entry records it. */
  lemma RecordedMembers(entries: seq<Entry>, n: Notification)
    ensures n in Recorded(entries) <==> exists i :: 0 <= i < |entries| && Contribution(entries[i]) == Some(n)
  {
    var cs := Contributions(entries);
    SomesMembers(cs, n);
    if Some(n) in cs {
      var i :| 0 <= i < |cs| && cs[i] == Some(n);
      assert Contribution(entries[i]) == Some(n);
    }
    if exists i :: 0 <= i < |entries| && Contribution(entries[i]) == Some(n) {
      var i :| 0 <= i < |entries| && Contribution(entries[i]) == Some(n);
      assert cs[i] == Some(n);
    }
  }

  /** `LatestFor` finds a chapter exactly for the titles that have a record, and the
      chapter it finds is one recorded for that title. */
  lemma {:induction false} LatestForFound(records: seq<Notification>, title: string)
    ensures LatestFor(records, title).Some? <==> exists n :: n in records && n.title == title
    ensures LatestFor(records, title).Some? ==> Notification(title, LatestFor(records, title).value) in records
    decreases |records|
  {
    if |records| > 0 {
      var init := records[..|records| - 1];
      LatestForFound(init, title);
      assert records == init + [records[|records| - 1]];
      if exists n :: n in records && n.title == title {
        var n :| n in records && n.title == title;
        if n !in init {
          assert n == records[|records| - 1];
        }
      }
    }
  }

  /** A record is announced exactly when it is news against the saved map. */
  lemma {:induction false} AnnouncementsMembers(records: seq<Notification>, prior: State, n: Notification)
    ensures n in Announcements(records, prior) <==> n in records && IsNews(prior, n)
    decreases |records|
  {
    if |records| > 0 {
      AnnouncementsMembers(records[1..], prior, n);
      assert records == [records[0]] + records[1..];
    }
  }

  /** The new map holds exactly the titles some entry records (non-empty title, usable
      chapter, unread): titles now read, skipped, or no longer fetched are dropped, even
      when the saved map held them. */
  lemma StateKeys(entries: seq<Entry>, prior: State, title: string)
    ensures title in Reconcile(entries, prior).state <==>
            exists i :: 0 <= i < |entries| && RecordsTitle(entries[i], title)
  {
    var records := Recorded(entries);
    LatestForFound(records, title);
    assert Lookup(Reconcile(entries, prior).state, title) == LatestFor(records, title);
    if title in Reconcile(entries, prior).state {
      var n :| n in records && n.title == title;
      RecordedMembers(entries, n);
    }
    if exists i :: 0 <= i < |entries| && RecordsTitle(entries[i], title) {
      var i :| 0 <= i < |entries| && RecordsTitle(entries[i], title);
      RecordedMembers(entries, Contribution(entries[i]).value);
    }
  }

  /** What one turn of the loop does to the lookup of one title. */
  lemma StepLookup(acc: Outcome, e: Entry, prior: State, title: string)
    ensures Lookup(Step(acc, e, prior).state, title)
            == if RecordsTitle(e, title) then Some(Contribution(e).value.chapter) else Lookup(acc.state, title)
  {
  }

  /** The value kept for a title is the chapter of the LAST entry recording that title. */
  lemma {:induction false} StateKeepsLastChapter(entries: seq<Entry>, prior: State, i: nat)
    requires i < |entries| && Contribution(entries[i]).Some?
    requires forall j :: i < j < |entries| ==> !RecordsTitle(entries[j], Contribution(entries[i]).value.title)
    ensures Lookup(Reconcile(entries, prior).state, Contribution(entries[i]).value.title)
            == Some(Contribution(entries[i]).value.chapter)
    decreases |entries|
  {
    var n := Contribution(entries[i]).value;
    var init := entries[..|entries| - 1];
    var last := entries[|entries| - 1];
    var acc := Reconcile(init, prior);
    assert Reconcile(entries, prior) == Step(acc, last, prior);
    StepLookup(acc, last, prior, n.title);
    if i < |entries| - 1 {
      assert init[i] == entries[i];
      forall j | i < j < |init|
        ensures !RecordsTitle(init[j], n.title)
      {
        assert init[j] == entries[j];
      }
      StateKeepsLastChapter(init, prior, i);
      assert !RecordsTitle(last, n.title);
    } else {
      assert last == entries[i];
    }
  }

  /** A notification is emitted for a pair exactly when some entry records it and the
      saved map does not already hold that chapter for the title. */
  lemma NotificationTrigger(entries: seq<Entry>, prior: State, n: Notification)
    ensures n in Reconcile(entries, prior).notifications <==>
            IsNews(prior, n) && exists i :: 0 <= i < |entries| && Contribution(entries[i]) == Some(n)
  {
    AnnouncementsMembers(Recorded(entries), prior, n);
    RecordedMembers(entries, n);
  }

  /** The new map is built from scratch: the saved map cannot influence it. */
  lemma StateIgnoresPrior(entries: seq<Entry>, prior1: State, prior2: State)
    ensures Reconcile(entries, prior1).state == Reconcile(entries, prior2).state
  {
    LookupExtensional(Reconcile(entries, prior1).state, Reconcile(entries, prior2).state);
  }

  /** An entry that is malformed, has a missing or empty title, has no usable chapter, or
      is not unread changes neither the new map nor the notifications, wherever it stands. */
  lemma SkippedEntryInert(before: seq<Entry>, e: Entry, after: seq<Entry>, prior: State)
    requires || e.Malformed?
             || e.title.None? || e.title == Some("")
             || Normalize(e.latest).None?
             || !e.unread
    ensures Reconcile(before + [e] + after, prior) == Reconcile(before + after, prior)
  {
    assert Contribution(e).None?;
    RecordsNothingInert(before, e, after, prior);
  }

  lemma RecordsNothingInert(before: seq<Entry>, e: Entry, after: seq<Entry>, prior: State)
    requires Contribution(e).None?
    ensures Reconcile(before + [e] + after, prior) == Reconcile(before + after, prior)
  {
    var with := before + [e] + after;
    var without := before + after;
    RecordedSingle(e);
    assert Recorded(with) == Recorded(without) by {
      RecordedConcat(before, [e]);
      RecordedConcat(before + [e], after);
      RecordedConcat(before, after);
    }
    var r1 := Reconcile(with, prior);
    var r2 := Reconcile(without, prior);
    forall t
      ensures Lookup(r1.state, t) == Lookup(r2.state, t)
    {
      assert Lookup(r1.state, t) == LatestFor(Recorded(with), t);
      assert Lookup(r2.state, t) == LatestFor(Recorded(without), t);
    }
    LookupExtensional(r1.state, r2.state);
    assert r1.notifications == r2.notifications;
  }

  /** Every title's recorded chapters agree: no title is recorded with two different chapters. */
  predicate ChaptersAgree(entries: seq<Entry>) {
    forall i, j ::
      0 <= i < |entries| && 0 <= j < |entries|
      && Contribution(entries[i]).Some? && Contribution(entries[j]).Some?
      && Contribution(entries[i]).value.title == Contribution(entries[j]).value.title
      ==> Contribution(entries[i]).value.chapter == Contribution(entries[j]).value.chapter
  }

  lemma AnnouncementsEmpty(records: seq<Notification>, prior: State)
    ensures Announcements(records, prior) == [] <==> forall n :: n in records ==> !IsNews(prior, n)
  {
    var a := Announcements(records, prior);
    if a != [] {
      AnnouncementsMembers(records, prior, a[0]);
    }
    forall n | n in records && IsNews(prior, n)
      ensures n in a
    {
      AnnouncementsMembers(records, prior, n);
    }
  }

  /** Idempotence: reconciling the same entries against the map a first run produced
      returns the same map, and announces nothing exactly when every title's recorded
      chapters agree. (They can disagree only when a title occurs twice: each occurrence
      is compared with the saved map, not with the map being built.) */
  lemma SecondRunQuiet(entries: seq<Entry>, prior: State)
    ensures Reconcile(entries, Reconcile(entries, prior).state).state == Reconcile(entries, prior).state
    ensures Reconcile(entries, Reconcile(entries, prior).state).notifications == [] <==> ChaptersAgree(entries)
  {
    var saved := Reconcile(entries, prior).state;
    var records := Recorded(entries);
    StateIgnoresPrior(entries, saved, prior);
    AnnouncementsEmpty(records, saved);
    if ChaptersAgree(entries) {
      forall n | n in records
        ensures !IsNews(saved, n)
      {
        LatestForFound(records, n.title);
        var latest := Notification(n.title, LatestFor(records, n.title).value);
        RecordedMembers(entries, n);
        RecordedMembers(entries, latest);
        var i :| 0 <= i < |entries| && Contribution(entries[i]) == Some(n);
        var j :| 0 <= j < |entries| && Contribution(entries[j]) == Some(latest);
        assert Lookup(saved, n.title) == LatestFor(records, n.title);
      }
    }
    if forall n :: n in records ==> !IsNews(saved, n) {
      forall i, j |
        0 <= i < |entries| && 0 <= j < |entries|
        && Contribution(entries[i]).Some? && Contribution(entries[j]).Some?
        && Contribution(entries[i]).value.title == Contribution(entries[j]).value.title
        ensures Contribution(entries[i]).value.chapter == Contribution(entries[j]).value.chapter
      {
        var m := Contribution(entries[i]).value;
        var n := Contribution(entries[j]).value;
        RecordedMembers(entries, m);
        RecordedMembers(entries, n);
        assert !IsNews(saved, m) && !IsNews(saved, n);
      }
    }
  }

  /** When the recording entries have distinct titles, a second run against the first
      run's map announces nothing and returns the same map. */
  lemma DistinctTitlesIdempotent(entries: seq<Entry>, prior: State)
    requires forall i, j :: 0 <= i < j < |entries| && Contribution(entries[i]).Some? && Contribution(entries[j]).Some?
               ==> Contribution(entries[i]).value.title != Contribution(entries[j]).value.title
    ensures Reconcile(entries, Reconcile(entries, prior).state) == Reconcile(entries, prior).(notifications := [])
  {
    assert ChaptersAgree(entries) by {
      forall i, j |
        0 <= i < |entries| && 0 <= j < |entries|
        && Contribution(entries[i]).Some? && Contribution(entries[j]).Some?
        && Contribution(entries[i]).value.title == Contribution(entries[j]).value.title
        ensures Contribution(entries[i]).value.chapter == Contribution(entries[j]).value.chapter
      {
        if i < j || j < i {
          assert false;
        }
      }
    }
    SecondRunQuiet(entries, prior);
  }

  /** The Pushover message text for an announcement. */
  function Message(n: Notification): string {
    n.title + " | Ch. " + n.chapter + " released!"
  }

  /** The chapter part of a message, given the title it begins with. */
  function ChapterInMessage(message: string, title: string): string
    requires |message| >= |title| + 17
  {
    message[|title| + 7..|message| - 10]
  }

  /** A message begins with its title, and the chapter can be read back out of it. */
  lemma MessageRoundTrip(n: Notification)
    ensures |Message(n)| == |n.title| + |n.chapter| + 17
    ensures Message(n)[..|n.title|] == n.title
    ensures ChapterInMessage(Message(n), n.title) == n.chapter
  {
  }

  /** Two entries, the first recording news and the second recording nothing. */
  lemma NewsThenSkipped(first: Entry, second: Entry, prior: State, n: Notification)
    requires Contribution(first) == Some(n) && IsNews(prior, n)
    requires Contribution(second) == None
    ensures Reconcile([first, second], prior) == Outcome(map[n.title := n.chapter], [n])
  {
    var r := Reconcile([first, second], prior);
    assert Recorded([first, second]) == [n] by {
      RecordedConcat([first], [second]);
      assert [first] + [second] == [first, second];
      RecordedSingle(first);
      RecordedSingle(second);
    }
    forall t
      ensures Lookup(r.state, t) == Lookup(map[n.title := n.chapter], t)
    {
      LatestForAppend([], n, t);
      assert [] + [n] == [n];
    }
    LookupExtensional(r.state, map[n.title := n.chapter]);
    AnnouncementsSingle(n, prior);
  }

  /** An unread entry with a title and a non-zero integer or whole-float chapter records
      the chapter's plain decimal rendering. */
  lemma WholeChapterRecorded(title: string, raw: RawChapter, n: int)
    requires title != "" && n != 0
    requires Unwrap(raw) == Int(n) || Unwrap(raw) == WholeFloat(n)
    ensures Contribution(Entry(Some(title), true, raw)) == Some(Notification(title, Text.IntString(n)))
  {
    WholeChapter(raw, n);
  }

  /** A title still unread whose chapter moved from "178" to the float 179.0 is kept and
      announced as "179"; a title now read is dropped without a notification. */
  lemma NewChapterAndReadTitle()
    ensures Reconcile(
              [ Entry(Some("Solo Leveling"), true, Nested(WholeFloat(179))),
                Entry(Some("Omniscient Reader"), false, Nested(Int(12))) ],
              map["Solo Leveling" := "178", "Omniscient Reader" := "11"])
            == Outcome(map["Solo Leveling" := "179"], [Notification("Solo Leveling", "179")])
  {
    WholeChapterRecorded("Solo Leveling", Nested(WholeFloat(179)), 179);
    assert Text.IntString(179) == "179";
    NewsThenSkipped(
      Entry(Some("Solo Leveling"), true, Nested(WholeFloat(179))),
      Entry(Some("Omniscient Reader"), false, Nested(Int(12))),
      map["Solo Leveling" := "178", "Omniscient Reader" := "11"],
      Notification("Solo Leveling", "179"));
  }
}
