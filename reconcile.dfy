/** The browser's reconciliation of change events into its list of notes
    (frontend/src/app/page.tsx): the effective timestamp of a note, the
    newest-first stable sort, and `applyChange`, which merges one `created`,
    `updated` or `deleted` event into the current list keyed by id.

    Everything here is a function on values: the source builds every new
    list by spread, `slice` or `filter`, so the list it is given is never
    changed, and a Dafny `seq` cannot be changed either. */
module Reconcile {
  import opened Wrappers
  import opened JsString
  import opened Types

  /** `new Date(s).getTime()`: the instant `s` denotes, or `None` for NaN.
      The date grammar itself is not modelled, so every function that needs
      it takes the parser as a parameter. */
  type DateParser = string -> Option<int>

  // ---------------------------------------------------------------------
  // Effective timestamp (getSortTimestamp)
  // ---------------------------------------------------------------------

  /** `getSortTimestamp`: `updated_at` when it is truthy, else `created_at`;
      0 when neither is truthy or when the chosen string does not parse. */
  function Timestamp(parse: DateParser, n: Note): int {
    var ds := if Truthy(n.updatedAt) then n.updatedAt else n.createdAt;
    if !Truthy(ds) then 0
    else match parse(ds.value)
      case Some(t) => t
      case None => 0
  }

  /** Which field decides the timestamp. A truthy `updated_at` that does not
      parse gives 0: it does not fall back to `created_at`. */
  lemma TimestampChoice(parse: DateParser, n: Note)
    ensures Truthy(n.updatedAt) && parse(n.updatedAt.value).Some? ==>
              Timestamp(parse, n) == parse(n.updatedAt.value).value
    ensures Truthy(n.updatedAt) && parse(n.updatedAt.value).None? ==>
              Timestamp(parse, n) == 0
    ensures !Truthy(n.updatedAt) && Truthy(n.createdAt) ==>
              Timestamp(parse, n) == parse(n.createdAt.value).GetOr(0)
    ensures !Truthy(n.updatedAt) && !Truthy(n.createdAt) ==> Timestamp(parse, n) == 0
  {
  }

  // ---------------------------------------------------------------------
  // Newest-first stable sort (sortNotesByLatestUpdated)
  // ---------------------------------------------------------------------

  /** Non-increasing by effective timestamp: newest first. */
  predicate SortedByLatest(parse: DateParser, s: seq<Note>) {
    forall i, j :: 0 <= i < j < |s| ==> Timestamp(parse, s[i]) >= Timestamp(parse, s[j])
  }

  /** The notes of `s` whose effective timestamp is `t`, in their order in `s`. */
  function WithTimestamp(parse: DateParser, s: seq<Note>, t: int): seq<Note> {
    if s == [] then []
    else (if Timestamp(parse, s[0]) == t then [s[0]] else []) + WithTimestamp(parse, s[1..], t)
  }

  /** `r` is a stable newest-first sort of `s`: sorted, and for every
      timestamp the notes carrying it appear in `r` in the same order as in
      `s` (and no others). This is what `Array.prototype.sort` with the
      comparator `(a, b) => ts(b) - ts(a)` promises, the sort being stable
      by section 23.1.3.30 of ECMA-262. */
  ghost predicate IsStableSortOf(parse: DateParser, r: seq<Note>, s: seq<Note>) {
    && SortedByLatest(parse, r)
    && forall t :: WithTimestamp(parse, r, t) == WithTimestamp(parse, s, t)
  }

  /** Inserts `x` before the first note that is not newer than it. */
  function InsertByLatest(parse: DateParser, x: Note, s: seq<Note>): (r: seq<Note>)
    ensures |r| == |s| + 1 && multiset(r) == multiset{x} + multiset(s)
  {
    if s == [] || Timestamp(parse, s[0]) <= Timestamp(parse, x) then
      [x] + s
    else
      assert s == [s[0]] + s[1..];
      [s[0]] + InsertByLatest(parse, x, s[1..])
  }

  /** Inserting into a newest-first list keeps it newest first. */
  lemma {:induction false} InsertKeepsSorted(parse: DateParser, x: Note, s: seq<Note>)
    requires SortedByLatest(parse, s)
    ensures SortedByLatest(parse, InsertByLatest(parse, x, s))
  {
    if s != [] && Timestamp(parse, s[0]) > Timestamp(parse, x) {
      var tail := s[1..];
      SortedTail(parse, s);
      InsertKeepsSorted(parse, x, tail);
      var rest := InsertByLatest(parse, x, tail);
      forall j | 0 <= j < |rest| ensures Timestamp(parse, s[0]) >= Timestamp(parse, rest[j]) {
        assert rest[j] in multiset(rest);
        if rest[j] != x {
          assert rest[j] in multiset(tail);
          var m :| 0 <= m < |tail| && tail[m] == rest[j];
          assert s[m + 1] == rest[j];
        }
      }
      ConsSorted(parse, s[0], rest);
    }
  }

  /** A note no older than every note of a newest-first list can go in
      front of it. */
  lemma ConsSorted(parse: DateParser, h: Note, rest: seq<Note>)
    requires SortedByLatest(parse, rest)
    requires forall j :: 0 <= j < |rest| ==> Timestamp(parse, h) >= Timestamp(parse, rest[j])
    ensures SortedByLatest(parse, [h] + rest)
  {
    var r := [h] + rest;
    forall i, j | 0 <= i < j < |r| ensures Timestamp(parse, r[i]) >= Timestamp(parse, r[j]) {
      assert r[j] == rest[j - 1];
      if i > 0 { assert r[i] == rest[i - 1]; }
    }
  }

  /** Inserting `x` puts it, among the notes sharing its timestamp, after
      none of them: it becomes the first of its timestamp and every other
      timestamp's notes are untouched. */
  lemma {:induction false} InsertTimestampOrder(parse: DateParser, x: Note, s: seq<Note>, t: int)
    ensures WithTimestamp(parse, InsertByLatest(parse, x, s), t) ==
              (if Timestamp(parse, x) == t then [x] else []) + WithTimestamp(parse, s, t)
  {
    if s == [] || Timestamp(parse, s[0]) <= Timestamp(parse, x) {
      assert ([x] + s)[1..] == s;
    } else {
      InsertTimestampOrder(parse, x, s[1..], t);
      var rest := InsertByLatest(parse, x, s[1..]);
      var head := if Timestamp(parse, s[0]) == t then [s[0]] else [];
      var mid := if Timestamp(parse, x) == t then [x] else [];
      assert ([s[0]] + rest)[1..] == rest;
      calc {
        WithTimestamp(parse, [s[0]] + rest, t);
        head + WithTimestamp(parse, rest, t);
        head + (mid + WithTimestamp(parse, s[1..], t));
        mid + (head + WithTimestamp(parse, s[1..], t));
        mid + WithTimestamp(parse, s, t);
      }
    }
  }

  /** `sortNotesByLatestUpdated`: the notes newest first, notes with equal
      timestamps in their input order. Insertion sort, front to back. */
  function SortByLatest(parse: DateParser, s: seq<Note>): (r: seq<Note>)
    ensures |r| == |s| && multiset(r) == multiset(s)
    ensures IsStableSortOf(parse, r, s)
  {
    if s == [] then []
    else
      var rest := SortByLatest(parse, s[1..]);
      assert s == [s[0]] + s[1..];
      InsertKeepsSorted(parse, s[0], rest);
      assert forall t :: WithTimestamp(parse, InsertByLatest(parse, s[0], rest), t)
                         == WithTimestamp(parse, s, t) by {
        forall t ensures WithTimestamp(parse, InsertByLatest(parse, s[0], rest), t)
                         == WithTimestamp(parse, s, t) {
          InsertTimestampOrder(parse, s[0], rest, t);
        }
      }
      InsertByLatest(parse, s[0], rest)
  }

  /** A note listed under timestamp `t` has that timestamp and comes from `s`. */
  lemma WithTimestampMembers(parse: DateParser, s: seq<Note>, t: int)
    ensures forall y :: y in WithTimestamp(parse, s, t) ==> y in s && Timestamp(parse, y) == t
  {
    if s != [] {
      WithTimestampMembers(parse, s[1..], t);
    }
  }

  /** The first note is listed under its own timestamp. */
  lemma FirstHasItsTimestamp(parse: DateParser, s: seq<Note>)
    ensures s != [] ==> WithTimestamp(parse, s, Timestamp(parse, s[0])) != []
  {
  }

  /** The tail of a newest-first list is newest first. */
  lemma SortedTail(parse: DateParser, s: seq<Note>)
    requires s != [] && SortedByLatest(parse, s)
    ensures SortedByLatest(parse, s[1..])
  {
    forall i, j | 0 <= i < j < |s[1..]|
      ensures Timestamp(parse, s[1..][i]) >= Timestamp(parse, s[1..][j])
    {
      assert s[1..][i] == s[i + 1] && s[1..][j] == s[j + 1];
    }
  }

  /** Two non-empty newest-first lists that agree timestamp by timestamp
      start with the same note. */
  lemma SameFirst(parse: DateParser, a: seq<Note>, b: seq<Note>)
    requires a != [] && b != [] && SortedByLatest(parse, a) && SortedByLatest(parse, b)
    requires forall t :: WithTimestamp(parse, a, t) == WithTimestamp(parse, b, t)
    ensures a[0] == b[0]
  {
    var ka, kb := Timestamp(parse, a[0]), Timestamp(parse, b[0]);
    var wa, wb := WithTimestamp(parse, a, ka), WithTimestamp(parse, b, kb);
    assert wa == WithTimestamp(parse, b, ka);
    assert wb == WithTimestamp(parse, a, kb);
    assert ka <= kb by { NewestFirstBound(parse, b, ka); }
    assert kb <= ka by { NewestFirstBound(parse, a, kb); }
    assert wa[0] == a[0] && wb[0] == b[0];
  }

  /** A timestamp that some note of a newest-first list carries is at most
      that of the list's first note. */
  lemma NewestFirstBound(parse: DateParser, s: seq<Note>, t: int)
    requires s != [] && SortedByLatest(parse, s)
    requires WithTimestamp(parse, s, t) != []
    ensures t <= Timestamp(parse, s[0])
  {
    WithTimestampMembers(parse, s, t);
    var y := WithTimestamp(parse, s, t)[0];
    assert y in WithTimestamp(parse, s, t);
    var i :| 0 <= i < |s| && s[i] == y;
  }

  /** Two lists with the same first note that agree timestamp by timestamp
      agree on their tails too. */
  lemma TailsAgree(parse: DateParser, a: seq<Note>, b: seq<Note>, t: int)
    requires a != [] && b != [] && a[0] == b[0]
    requires WithTimestamp(parse, a, t) == WithTimestamp(parse, b, t)
    ensures WithTimestamp(parse, a[1..], t) == WithTimestamp(parse, b[1..], t)
  {
    var p := if Timestamp(parse, a[0]) == t then [a[0]] else [];
    assert WithTimestamp(parse, a[1..], t) == (p + WithTimestamp(parse, a[1..], t))[|p|..];
    assert WithTimestamp(parse, b[1..], t) == (p + WithTimestamp(parse, b[1..], t))[|p|..];
  }

  /** Two newest-first sequences that agree, timestamp by timestamp, on which
      notes they hold and in what order are the same sequence. */
  lemma {:induction false} SortedFiltersDetermine(parse: DateParser, a: seq<Note>, b: seq<Note>)
    requires SortedByLatest(parse, a) && SortedByLatest(parse, b)
    requires forall t :: WithTimestamp(parse, a, t) == WithTimestamp(parse, b, t)
    ensures a == b
    decreases |a|
  {
    if a == [] && b == [] {
    } else if a == [] {
      FirstHasItsTimestamp(parse, b);
      assert false;
    } else if b == [] {
      FirstHasItsTimestamp(parse, a);
      assert false;
    } else {
      SameFirst(parse, a, b);
      forall t ensures WithTimestamp(parse, a[1..], t) == WithTimestamp(parse, b[1..], t) {
        TailsAgree(parse, a, b, t);
      }
      SortedTail(parse, a);
      SortedTail(parse, b);
      SortedFiltersDetermine(parse, a[1..], b[1..]);
      assert a == [a[0]] + a[1..] && b == [b[0]] + b[1..];
    }
  }

  /** The stable newest-first sort is unique: a list is a stable sort of `s`
      exactly when it is what `sortNotesByLatestUpdated` returns. */
  lemma StableSortIsUnique(parse: DateParser, r: seq<Note>, s: seq<Note>)
    ensures IsStableSortOf(parse, r, s) <==> r == SortByLatest(parse, s)
  {
    var q := SortByLatest(parse, s);
    if IsStableSortOf(parse, r, s) {
      SortedFiltersDetermine(parse, r, q);
    }
  }

  /** A list that is already newest first is returned as it is. */
  lemma SortOfSorted(parse: DateParser, s: seq<Note>)
    requires SortedByLatest(parse, s)
    ensures SortByLatest(parse, s) == s
  {
    StableSortIsUnique(parse, s, s);
  }

  /** Sorting twice is sorting once. */
  lemma SortIdempotent(parse: DateParser, s: seq<Note>)
    ensures SortByLatest(parse, SortByLatest(parse, s)) == SortByLatest(parse, s)
  {
    SortOfSorted(parse, SortByLatest(parse, s));
  }

  // ---------------------------------------------------------------------
  // Lookups by id (Array.prototype.some / findIndex / filter)
  // ---------------------------------------------------------------------

  /** `current.some((n) => n.id === k)`. */
  predicate HasId(s: seq<Note>, k: int) {
    exists i :: 0 <= i < |s| && s[i].id == Some(k)
  }

  /** `current.findIndex((n) => n.id === k)`: the first index holding `k`,
      or -1 when there is none. */
  function FindIndex(s: seq<Note>, k: int): (i: int)
    ensures -1 <= i < |s|
    ensures i == -1 <==> !HasId(s, k)
    ensures 0 <= i ==> s[i].id == Some(k) && forall j :: 0 <= j < i ==> s[j].id != Some(k)
  {
    if s == [] then -1
    else if s[0].id == Some(k) then 0
    else
      var i := FindIndex(s[1..], k);
      assert forall j :: 0 < j < |s| ==> s[j] == s[1..][j - 1];
      if i == -1 then -1 else i + 1
  }

  /** `current.filter((n) => n.id !== k)`: every note with id `k` removed,
      the others kept in their order. */
  function WithoutId(s: seq<Note>, k: int): (r: seq<Note>)
    ensures |r| <= |s|
    ensures forall n :: n in r <==> n in s && n.id != Some(k)
    ensures !HasId(r, k)
    ensures !HasId(s, k) ==> r == s
  {
    if s == [] then []
    else
      var rest := WithoutId(s[1..], k);
      assert s == [s[0]] + s[1..];
      assert HasId(s[1..], k) ==> HasId(s, k) by {
        if HasId(s[1..], k) {
          var i :| 0 <= i < |s[1..]| && s[1..][i].id == Some(k);
          assert s[i + 1].id == Some(k);
        }
      }
      if s[0].id != Some(k) then
        assert !HasId([s[0]] + rest, k) by {
          forall i | 0 <= i < |[s[0]] + rest| ensures ([s[0]] + rest)[i].id != Some(k) {
            if i > 0 { assert ([s[0]] + rest)[i] == rest[i - 1]; }
          }
        }
        [s[0]] + rest
      else
        rest
  }

  /** The filter keeps every surviving entry as often as it occurs: an entry
      without the id `k` occurs in the result exactly as many times as in
      the input, one with it not at all. */
  lemma {:induction false} WithoutIdCounts(s: seq<Note>, k: int)
    ensures forall n :: multiset(WithoutId(s, k))[n] == if n.id == Some(k) then 0 else multiset(s)[n]
  {
    if s != [] {
      WithoutIdCounts(s[1..], k);
      var rest := WithoutId(s[1..], k);
      assert s == [s[0]] + s[1..];
      assert multiset(s) == multiset{s[0]} + multiset(s[1..]);
      if s[0].id != Some(k) {
        assert WithoutId(s, k) == [s[0]] + rest;
        assert multiset([s[0]] + rest) == multiset{s[0]} + multiset(rest);
      } else {
        assert WithoutId(s, k) == rest;
      }
    }
  }

  /** `a` lists some of the entries of `b`, in `b`'s order. */
  predicate IsSubsequence(a: seq<Note>, b: seq<Note>) {
    if a == [] then true
    else if b == [] then false
    else if a[0] == b[0] then IsSubsequence(a[1..], b[1..])
    else IsSubsequence(a, b[1..])
  }

  /** Removing by id keeps the survivors in their relative order. */
  lemma {:induction false} WithoutIdKeepsOrder(s: seq<Note>, k: int)
    ensures IsSubsequence(WithoutId(s, k), s)
  {
    if s != [] {
      WithoutIdKeepsOrder(s[1..], k);
      var rest := WithoutId(s[1..], k);
      if s[0].id != Some(k) {
        assert ([s[0]] + rest)[1..] == rest;
      } else if rest != [] {
        assert rest[0] in rest;
      }
    }
  }

  // ---------------------------------------------------------------------
  // applyChange
  // ---------------------------------------------------------------------

  datatype ChangeType = Created | Updated | Deleted

  /** A `NoteChangeEvent`. For a `deleted` event only `note.id` is read. */
  datatype ChangeEvent = ChangeEvent(kind: ChangeType, note: Note, timestamp: int)

  /** The list `applyChange` works towards before it sorts (`next`), and its
      final answer for a `deleted` event: keyed by `change.note.id`; an event
      without an id changes nothing. */
  function Merged(current: seq<Note>, change: ChangeEvent): seq<Note> {
    match change.note.id
    case None => current
    case Some(k) =>
      match change.kind
      case Created => if HasId(current, k) then current else current + [change.note]
      case Updated =>
        var idx := FindIndex(current, k);
        if idx == -1 then current + [change.note] else current[idx := change.note]
      case Deleted => WithoutId(current, k)
  }

  /** `applyChange(current, change)`: merge by id, then, for `created` and
      `updated` only, sort newest first. */
  function ApplyChange(parse: DateParser, current: seq<Note>, change: ChangeEvent): (r: seq<Note>)
    ensures change.kind != Deleted ==> SortedByLatest(parse, r)
    ensures |r| <= |current| + 1
    ensures forall n :: n in r ==> n in current || n == change.note
  {
    var next := Merged(current, change);
    assert forall n :: n in next ==> n in current || n == change.note;
    if change.kind == Deleted then next
    else
      var r := SortByLatest(parse, next);
      assert forall n :: n in r ==> n in multiset(next);
      r
  }

  /** `created` with an id already in the list adds nothing: the result is
      the current list re-sorted. With a new id the result is the sort of
      the current list with the note appended, one longer. */
  lemma ApplyCreated(parse: DateParser, current: seq<Note>, note: Note, ts: int)
    requires note.id.Some?
    ensures var r := ApplyChange(parse, current, ChangeEvent(Created, note, ts));
      && (HasId(current, note.id.value) ==>
            multiset(r) == multiset(current) && IsStableSortOf(parse, r, current))
      && (!HasId(current, note.id.value) ==>
            |r| == |current| + 1 && multiset(r) == multiset(current) + multiset{note}
            && IsStableSortOf(parse, r, current + [note]))
  {
  }

  /** A note of a list is a note of its sort. */
  lemma InSort(parse: DateParser, s: seq<Note>, x: Note)
    requires x in s
    ensures x in SortByLatest(parse, s)
  {
    assert x in multiset(s);
  }

  /** Applying the same `created` event twice is applying it once: the
      originating client's own echo does not duplicate the note. */
  lemma ApplyCreatedIdempotent(parse: DateParser, current: seq<Note>, change: ChangeEvent)
    requires change.kind == Created
    ensures ApplyChange(parse, ApplyChange(parse, current, change), change)
            == ApplyChange(parse, current, change)
  {
    var once := ApplyChange(parse, current, change);
    match change.note.id {
      case None =>
        SortIdempotent(parse, current);
      case Some(k) =>
        var next := Merged(current, change);
        var i := if HasId(current, k) then FindIndex(current, k) else |current|;
        assert next[i].id == Some(k);
        InSort(parse, next, next[i]);
        var j :| 0 <= j < |once| && once[j] == next[i];
        assert Merged(once, change) == once;
        SortOfSorted(parse, once);
    }
  }

  /** The echo of a client's own creation, arriving when the note is already
      in its newest-first list, leaves the list exactly as it was. */
  lemma EchoedCreateIsNoOp(parse: DateParser, current: seq<Note>, note: Note, ts: int)
    requires note.id.Some? && HasId(current, note.id.value)
    requires SortedByLatest(parse, current)
    ensures ApplyChange(parse, current, ChangeEvent(Created, note, ts)) == current
  {
    SortOfSorted(parse, current);
  }

  /** `updated` with an id present replaces the first entry carrying that id
      by the payload, keeping the length, then sorts; with an absent id it
      appends the payload, then sorts. */
  lemma ApplyUpdated(parse: DateParser, current: seq<Note>, note: Note, ts: int)
    requires note.id.Some?
    ensures var r := ApplyChange(parse, current, ChangeEvent(Updated, note, ts));
      var k := note.id.value;
      && (HasId(current, k) ==>
            var i := FindIndex(current, k);
            && |r| == |current|
            && multiset(r) == multiset(current) - multiset{current[i]} + multiset{note}
            && IsStableSortOf(parse, r, current[i := note]))
      && (!HasId(current, k) ==>
            |r| == |current| + 1 && multiset(r) == multiset(current) + multiset{note}
            && IsStableSortOf(parse, r, current + [note]))
  {
  }

  /** `deleted` removes every entry carrying the id and keeps the others in
      their relative order, without sorting; an id that is absent leaves the
      list as it is. */
  lemma ApplyDeleted(parse: DateParser, current: seq<Note>, note: Note, ts: int)
    requires note.id.Some?
    ensures var r := ApplyChange(parse, current, ChangeEvent(Deleted, note, ts));
      && (forall n :: n in r <==> n in current && n.id != note.id)
      && (forall n :: multiset(r)[n] == if n.id == note.id then 0 else multiset(current)[n])
      && IsSubsequence(r, current)
      && !HasId(r, note.id.value)
      && (!HasId(current, note.id.value) ==> r == current)
  {
    WithoutIdKeepsOrder(current, note.id.value);
    WithoutIdCounts(current, note.id.value);
  }

  /** An event whose note has no id adds, replaces and removes nothing:
      `created` and `updated` give the current list sorted, `deleted` gives
      the current list itself. */
  lemma ApplyWithoutId(parse: DateParser, current: seq<Note>, change: ChangeEvent)
    requires change.note.id.None?
    ensures change.kind == Deleted ==> ApplyChange(parse, current, change) == current
    ensures change.kind != Deleted ==> IsStableSortOf(parse, ApplyChange(parse, current, change), current)
  {
  }

  /** An `updated` event applied twice to a list with distinct ids is applied
      once. */
  lemma ApplyUpdatedIdempotent(parse: DateParser, current: seq<Note>, change: ChangeEvent)
    requires change.kind == Updated && DistinctIds(current)
    ensures ApplyChange(parse, ApplyChange(parse, current, change), change)
            == ApplyChange(parse, current, change)
  {
    match change.note.id {
      case None =>
        SortIdempotent(parse, current);
      case Some(k) =>
        var next := Merged(current, change);
        MergedKeepsDistinctIds(current, change);
        SortKeepsDistinctIds(parse, next);
        var i := FindIndex(current, k);
        assert next[if i == -1 then |current| else i] == change.note;
        InSort(parse, next, change.note);
        UpdateOfListed(parse, ApplyChange(parse, current, change), change);
    }
  }

  /** An `updated` event whose note is already an entry of a newest-first
      list with distinct ids leaves that list as it is. */
  lemma UpdateOfListed(parse: DateParser, s: seq<Note>, change: ChangeEvent)
    requires change.kind == Updated && change.note.id.Some? && change.note in s
    requires SortedByLatest(parse, s) && DistinctIds(s)
    ensures ApplyChange(parse, s, change) == s
  {
    var j :| 0 <= j < |s| && s[j] == change.note;
    assert FindIndex(s, change.note.id.value) == j;
    assert s[j := change.note] == s;
    SortOfSorted(parse, s);
  }

  // ---------------------------------------------------------------------
  // Distinct ids
  // ---------------------------------------------------------------------

  /** No id is carried by two entries (entries without an id are not
      compared). */
  predicate DistinctIds(s: seq<Note>) {
    forall i, j :: 0 <= i < j < |s| && s[i].id.Some? ==> s[i].id != s[j].id
  }

  /** `[x] + s` has distinct ids when `s` has and `x`'s id is not in `s`. */
  lemma DistinctIdsCons(x: Note, s: seq<Note>)
    requires DistinctIds(s)
    requires x.id.Some? ==> forall y :: y in s ==> y.id != x.id
    ensures DistinctIds([x] + s)
  {
    forall i, j | 0 <= i < j < |[x] + s| && ([x] + s)[i].id.Some?
      ensures ([x] + s)[i].id != ([x] + s)[j].id
    {
      assert ([x] + s)[j] == s[j - 1];
      if i > 0 { assert ([x] + s)[i] == s[i - 1]; }
    }
  }

  /** The entries after the first of a list with distinct ids do not carry
      the first entry's id, and have distinct ids themselves. */
  lemma DistinctIdsTail(s: seq<Note>)
    requires s != [] && DistinctIds(s)
    ensures DistinctIds(s[1..])
    ensures s[0].id.Some? ==> forall y :: y in s[1..] ==> y.id != s[0].id
  {
    forall i, j | 0 <= i < j < |s[1..]| && s[1..][i].id.Some?
      ensures s[1..][i].id != s[1..][j].id
    {
      assert s[1..][i] == s[i + 1] && s[1..][j] == s[j + 1];
    }
    if s[0].id.Some? {
      forall y | y in s[1..] ensures y.id != s[0].id {
        var j :| 0 <= j < |s[1..]| && s[1..][j] == y;
        assert s[j + 1] == y;
      }
    }
  }

  /** Inserting a note whose id is absent keeps the ids distinct. */
  lemma {:induction false} InsertKeepsDistinctIds(parse: DateParser, x: Note, s: seq<Note>)
    requires DistinctIds(s)
    requires x.id.Some? ==> forall y :: y in s ==> y.id != x.id
    ensures DistinctIds(InsertByLatest(parse, x, s))
  {
    if s == [] || Timestamp(parse, s[0]) <= Timestamp(parse, x) {
      DistinctIdsCons(x, s);
    } else {
      DistinctIdsTail(s);
      InsertKeepsDistinctIds(parse, x, s[1..]);
      var rest := InsertByLatest(parse, x, s[1..]);
      forall y | y in rest ensures s[0].id.Some? ==> y.id != s[0].id {
        assert y in multiset(rest);
        if y == x { assert s[0] in s; }
      }
      DistinctIdsCons(s[0], rest);
    }
  }

  /** Sorting keeps the ids distinct. */
  lemma {:induction false} SortKeepsDistinctIds(parse: DateParser, s: seq<Note>)
    requires DistinctIds(s)
    ensures DistinctIds(SortByLatest(parse, s))
  {
    if s != [] {
      DistinctIdsTail(s);
      SortKeepsDistinctIds(parse, s[1..]);
      var rest := SortByLatest(parse, s[1..]);
      forall y | y in rest ensures s[0].id.Some? ==> y.id != s[0].id {
        assert y in multiset(rest);
      }
      InsertKeepsDistinctIds(parse, s[0], rest);
    }
  }

  /** Removing entries by id keeps the ids distinct. */
  lemma {:induction false} WithoutIdKeepsDistinctIds(s: seq<Note>, k: int)
    requires DistinctIds(s)
    ensures DistinctIds(WithoutId(s, k))
  {
    if s != [] {
      DistinctIdsTail(s);
      WithoutIdKeepsDistinctIds(s[1..], k);
      if s[0].id != Some(k) {
        DistinctIdsCons(s[0], WithoutId(s[1..], k));
      }
    }
  }

  /** The keyed merge keeps the ids distinct. */
  lemma MergedKeepsDistinctIds(current: seq<Note>, change: ChangeEvent)
    requires DistinctIds(current)
    ensures DistinctIds(Merged(current, change))
  {
    match change.note.id
    case None =>
    case Some(k) =>
      match change.kind
      case Created =>
      case Updated =>
      case Deleted =>
        WithoutIdKeepsDistinctIds(current, k);
  }

  /** If the current list has pairwise-distinct ids, so has the result of
      `applyChange`, for every kind of event. */
  lemma ApplyChangeKeepsDistinctIds(parse: DateParser, current: seq<Note>, change: ChangeEvent)
    requires DistinctIds(current)
    ensures DistinctIds(ApplyChange(parse, current, change))
  {
    MergedKeepsDistinctIds(current, change);
    if change.kind != Deleted {
      SortKeepsDistinctIds(parse, Merged(current, change));
    }
  }

  /** The entries of a subsequence are entries of the whole. */
  lemma {:induction false} SubsequenceMembers(a: seq<Note>, b: seq<Note>)
    requires IsSubsequence(a, b)
    ensures forall x :: x in a ==> x in b
    decreases |b|
  {
    if a != [] && b != [] {
      if a[0] == b[0] {
        SubsequenceMembers(a[1..], b[1..]);
        forall x | x in a ensures x in b {
          if x != a[0] { assert x in a[1..]; }
        }
      } else {
        SubsequenceMembers(a, b[1..]);
      }
    }
  }

  /** Keeping some entries of a newest-first list, in order, leaves it
      newest first. */
  lemma {:induction false} SubsequenceKeepsSorted(parse: DateParser, a: seq<Note>, b: seq<Note>)
    requires IsSubsequence(a, b) && SortedByLatest(parse, b)
    ensures SortedByLatest(parse, a)
    decreases |b|
  {
    if a != [] && b != [] {
      var tail := b[1..];
      assert SortedByLatest(parse, tail) by {
        forall i, j | 0 <= i < j < |tail| ensures Timestamp(parse, tail[i]) >= Timestamp(parse, tail[j]) {
          assert tail[i] == b[i + 1] && tail[j] == b[j + 1];
        }
      }
      if a[0] == b[0] {
        SubsequenceKeepsSorted(parse, a[1..], tail);
        SubsequenceMembers(a[1..], tail);
        forall i, j | 0 <= i < j < |a| ensures Timestamp(parse, a[i]) >= Timestamp(parse, a[j]) {
          assert a[j] == a[1..][j - 1];
          if i == 0 {
            assert a[j] in tail;
            var k :| 0 <= k < |tail| && tail[k] == a[j];
            assert tail[k] == b[k + 1];
          } else {
            assert a[i] == a[1..][i - 1];
          }
        }
      } else {
        SubsequenceKeepsSorted(parse, a, tail);
      }
    }
  }

  /** A newest-first list stays newest first under every kind of event
      (for `deleted`, because removal keeps the survivors' order). */
  lemma ApplyChangeKeepsSorted(parse: DateParser, current: seq<Note>, change: ChangeEvent)
    requires SortedByLatest(parse, current)
    ensures SortedByLatest(parse, ApplyChange(parse, current, change))
  {
    if change.kind == Deleted && change.note.id.Some? {
      WithoutIdKeepsOrder(current, change.note.id.value);
      SubsequenceKeepsSorted(parse, WithoutId(current, change.note.id.value), current);
    }
  }

  /** The list after a series of events, applied in arrival order. */
  function ApplyAll(parse: DateParser, current: seq<Note>, changes: seq<ChangeEvent>): seq<Note>
    decreases |changes|
  {
    if changes == [] then current
    else ApplyAll(parse, ApplyChange(parse, current, changes[0]), changes[1..])
  }

  /** The list stays newest first whatever series of events arrives. */
  lemma {:induction false} ApplyAllKeepsSorted(parse: DateParser, current: seq<Note>, changes: seq<ChangeEvent>)
    requires SortedByLatest(parse, current)
    ensures SortedByLatest(parse, ApplyAll(parse, current, changes))
    decreases |changes|
  {
    if changes != [] {
      ApplyChangeKeepsSorted(parse, current, changes[0]);
      ApplyAllKeepsSorted(parse, ApplyChange(parse, current, changes[0]), changes[1..]);
    }
  }

  /** No series of `created`, `updated` and `deleted` events ever puts two
      entries with the same id into a list that started without any. */
  lemma {:induction false} ApplyAllKeepsDistinctIds(parse: DateParser, current: seq<Note>, changes: seq<ChangeEvent>)
    requires DistinctIds(current)
    ensures DistinctIds(ApplyAll(parse, current, changes))
    decreases |changes|
  {
    if changes != [] {
      ApplyChangeKeepsDistinctIds(parse, current, changes[0]);
      ApplyAllKeepsDistinctIds(parse, ApplyChange(parse, current, changes[0]), changes[1..]);
    }
  }
}
