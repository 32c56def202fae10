/**
 * The note store: an insertion-ordered map from id to note, kept in memory
 * and mirrored to a JSON file after every successful mutation, rebuilt from
 * that file when the store is constructed.
 *
 * The clock and the file system are inputs: `base` is the millisecond
 * timestamp already rendered in base 36, `now` the ISO-8601 time, `file` the
 * parsed content of the persistence file, and a `WriteOutcome` says how
 * each whole-file rewrite ended.
 */
module Notes {
  import opened Wrappers
  import opened Decimal
  import opened OrderedMaps

  datatype Note = Note(id: string, title: string, content: string, createdAt: string, updatedAt: string)

  /**
   * One element of the parsed persistence file: either something that is not
   * a note object at all (`null`, a number, ...) or an object with the note
   * fields. An `id` that is missing or empty (both falsy) is written "".
   */
  datatype Record = Blank | Fields(note: Note)

  /** The body of an update request: the fields it provides. */
  datatype Changes = Changes(title: Option<string>, content: Option<string>)

  // ---------------------------------------------------------------------------
  // Identifiers
  // ---------------------------------------------------------------------------

  /** The id tried for a given counter: `${base}-${counter}`. */
  function Candidate(base: string, counter: nat): (id: string)
    ensures |id| > |base| + 1 && id[..|base|] == base && id[|base|] == '-'
    ensures forall i :: |base| < i < |id| ==> '0' <= id[i] <= '9'
  {
    base + "-" + NatToString(counter)
  }

  /** The digits after `base-` denote the counter in decimal. */
  lemma CandidateCounter(base: string, counter: nat)
    ensures DigitsValue(Candidate(base, counter)[|base| + 1..]) == counter
  {
    assert Candidate(base, counter)[|base| + 1..] == NatToString(counter);
  }

  /** Different counters give different candidates. */
  lemma CandidateInjective(base: string, i: nat, j: nat)
    requires Candidate(base, i) == Candidate(base, j)
    ensures i == j
  {
    CandidateCounter(base, i);
    CandidateCounter(base, j);
  }

  /** The candidates for counters 0 .. n-1. */
  ghost function Candidates(base: string, n: nat): set<string> {
    if n == 0 then {} else Candidates(base, n - 1) + {Candidate(base, n - 1)}
  }

  lemma {:induction false} CandidatesCard(base: string, n: nat)
    ensures |Candidates(base, n)| == n
    ensures forall j: nat :: Candidate(base, j) in Candidates(base, n) <==> j < n
  {
    if n > 0 {
      CandidatesCard(base, n - 1);
      forall j: nat ensures Candidate(base, j) in Candidates(base, n) <==> j < n {
        if Candidate(base, j) == Candidate(base, n - 1) {
          CandidateInjective(base, j, n - 1);
        }
      }
    }
  }

  /** Candidates that are all taken form a subset of the taken ids. */
  lemma {:induction false} CandidatesWithin(base: string, taken: set<string>, n: nat)
    requires forall j: nat :: j < n ==> Candidate(base, j) in taken
    ensures Candidates(base, n) <= taken
  {
    if n > 0 {
      CandidatesWithin(base, taken, n - 1);
    }
  }

  /**
   * If the candidates for counters 0 .. n-1 are all taken, there are at least
   * n taken ids: so probing stops at a counter no larger than the map's size.
   */
  lemma ProbeBound(base: string, taken: set<string>, n: nat)
    requires forall j: nat :: j < n ==> Candidate(base, j) in taken
    ensures n <= |taken|
  {
    CandidatesCard(base, n);
    CandidatesWithin(base, taken, n);
    var cs := Candidates(base, n);
    assert |taken| == |taken - cs| + |cs|;
  }

  /**
   * `id` is what linear probing from counter 0 finds against `taken`: the
   * candidate for the smallest counter whose candidate is free.
   */
  ghost predicate FirstFree(base: string, taken: set<string>, id: string) {
    exists k: nat ::
      && k <= |taken|
      && id == Candidate(base, k)
      && id !in taken
      && forall j: nat :: j < k ==> Candidate(base, j) in taken
  }

  /** Probing is deterministic: only one id is the first free one. */
  lemma FirstFreeUnique(base: string, taken: set<string>, a: string, b: string)
    requires FirstFree(base, taken, a) && FirstFree(base, taken, b)
    ensures a == b
  {
  }

  // ---------------------------------------------------------------------------
  // Persistence
  // ---------------------------------------------------------------------------

  /** Every key is a non-empty string and the note stored under it carries it as its id. */
  ghost predicate KeyedById(m: OrderedMap<Note>) {
    forall k :: k in m.vals ==> k != "" && m.vals[k].id == k
  }

  /** Whether the record is a note object whose id is `k`. */
  predicate HasId(r: Record, k: string) {
    r.Fields? && r.note.id == k
  }

  /** What loading one record does: `if (n && n.id) notes.set(n.id, n)`. */
  function Accept(m: OrderedMap<Note>, r: Record): (m': OrderedMap<Note>)
    requires m.Valid() && KeyedById(m)
    ensures m'.Valid() && KeyedById(m')
    ensures r.Blank? || r.note.id == "" ==> m' == m
  {
    if r.Fields? && r.note.id != "" then m.Set(r.note.id, r.note) else m
  }

  /** The map after loading the records `rs`, in order, into `m`. */
  function Replay(m: OrderedMap<Note>, rs: seq<Record>): (m': OrderedMap<Note>)
    requires m.Valid() && KeyedById(m)
    ensures m'.Valid() && KeyedById(m')
    decreases |rs|
  {
    if rs == [] then m else Accept(Replay(m, rs[..|rs| - 1]), rs[|rs| - 1])
  }

  /**
   * The map a fresh store starts with. `None` stands for every case in which
   * nothing is loaded: no file, a read or parse error, or a value that is not
   * an array.
   */
  function Load(file: Option<seq<Record>>): (m: OrderedMap<Note>)
    ensures m.Valid() && KeyedById(m)
    ensures file.None? ==> m.Values() == []
  {
    match file
    case None => Empty()
    case Some(rs) => Replay(Empty(), rs)
  }

  /** The records written for a list of notes (`JSON.stringify` followed by `JSON.parse`). */
  function Persist(notes: seq<Note>): (rs: seq<Record>)
    ensures |rs| == |notes|
    ensures forall i :: 0 <= i < |notes| ==> rs[i] == Fields(notes[i])
  {
    seq(|notes|, i requires 0 <= i < |notes| => Fields(notes[i]))
  }

  /**
   * How a rewrite of the persistence file ends. The file is truncated when it
   * is opened for writing, so a failure before that (creating the directory,
   * opening the file) keeps the old content, while a failure part-way (a full
   * disk) leaves an empty or cut-off file, which loading cannot parse.
   */
  datatype WriteOutcome = Written | Refused | Truncated

  /** The file after rewriting it with `list`, when the rewrite ended as `w`. */
  function FileAfter(w: WriteOutcome, before: Option<seq<Record>>, list: seq<Note>): (f: Option<seq<Record>>)
    ensures w.Refused? ==> f == before
    ensures w.Truncated? ==> Load(f).Values() == []
    ensures w.Written? ==> f == Some(Persist(list))
    ensures forall m: OrderedMap<Note> :: w.Written? && m.Valid() && KeyedById(m) && list == m.Values() ==> Load(f) == m
  {
    forall m: OrderedMap<Note> | m.Valid() && KeyedById(m) {
      SaveThenLoad(m);
    }
    match w
    case Written => Some(Persist(list))
    case Refused => before
    case Truncated => None
  }

  /** Of several records with the same id, the last one supplies the value. */
  lemma {:induction false} LaterRecordWins(m: OrderedMap<Note>, rs: seq<Record>, i: nat)
    requires m.Valid() && KeyedById(m)
    requires i < |rs| && rs[i].Fields? && rs[i].note.id != ""
    requires forall j :: i < j < |rs| ==> !HasId(rs[j], rs[i].note.id)
    ensures Replay(m, rs).Get(rs[i].note.id) == Some(rs[i].note)
    decreases |rs|
  {
    var k := rs[i].note.id;
    var last := |rs| - 1;
    var front := rs[..last];
    var before := Replay(m, front);
    assert Replay(m, rs) == Accept(before, rs[last]);
    if i < last {
      assert front[i] == rs[i];
      LaterRecordWins(m, front, i);
      assert !HasId(rs[last], k);
      assert Accept(before, rs[last]).Get(k) == before.Get(k);
    }
  }

  /** An id no record carries keeps the value it had before loading. */
  lemma {:induction false} UnmentionedKeyKept(m: OrderedMap<Note>, rs: seq<Record>, k: string)
    requires m.Valid() && KeyedById(m)
    requires forall j :: 0 <= j < |rs| ==> !HasId(rs[j], k)
    ensures Replay(m, rs).Get(k) == m.Get(k)
    decreases |rs|
  {
    if rs != [] {
      var front := rs[..|rs| - 1];
      UnmentionedKeyKept(m, front, k);
      assert Replay(m, rs) == Accept(Replay(m, front), rs[|rs| - 1]);
    }
  }

  /**
   * Loading more records only appends to the iteration order: a key keeps the
   * position at which it was first seen, whatever later records carry it.
   */
  lemma {:induction false} ReplayKeepsOrder(m: OrderedMap<Note>, rs: seq<Record>, n: nat)
    requires m.Valid() && KeyedById(m)
    requires n <= |rs|
    ensures m.keys <= Replay(m, rs[..n]).keys <= Replay(m, rs).keys
    decreases |rs|
  {
    if rs == [] {
      assert rs[..n] == rs;
    } else if n == |rs| {
      assert rs[..n] == rs;
      ReplayKeepsOrder(m, rs[..|rs| - 1], |rs| - 1);
      assert rs[..|rs| - 1][..|rs| - 1] == rs[..|rs| - 1];
    } else {
      var front := rs[..|rs| - 1];
      assert front[..n] == rs[..n];
      ReplayKeepsOrder(m, front, n);
    }
  }

  /** The first `j` entries of `m`, as a map of their own. */
  ghost function Prefix(m: OrderedMap<Note>, j: nat): OrderedMap<Note>
    requires m.Valid() && j <= |m.keys|
  {
    OrderedMap(m.keys[..j], map k | k in m.keys[..j] :: m.vals[k])
  }

  lemma PrefixValid(m: OrderedMap<Note>, j: nat)
    requires m.Valid() && j <= |m.keys|
    ensures Prefix(m, j).Valid()
    ensures KeyedById(m) ==> KeyedById(Prefix(m, j))
  {
    var p := Prefix(m, j);
    assert Distinct(p.keys);
    assert forall i :: 0 <= i < |p.keys| ==> p.keys[i] in p.vals;
    assert forall k :: k in p.vals ==> k in p.keys;
  }

  /** Setting the next key of `m` onto its first `j` entries gives its first `j + 1`. */
  lemma PrefixStep(m: OrderedMap<Note>, j: nat)
    requires m.Valid() && j < |m.keys|
    ensures Prefix(m, j).Valid()
    ensures Prefix(m, j).Set(m.keys[j], m.vals[m.keys[j]]) == Prefix(m, j + 1)
  {
    PrefixValid(m, j);
    var k := m.keys[j];
    assert k !in Prefix(m, j).vals;
    assert m.keys[..j] + [k] == m.keys[..j + 1];
    assert Prefix(m, j).Set(k, m.vals[k]).keys == Prefix(m, j + 1).keys;
    assert Prefix(m, j).Set(k, m.vals[k]).vals == Prefix(m, j + 1).vals;
  }

  /** Loading one more note record sets that note under its id. */
  lemma ReplayStep(rs: seq<Record>, j: nat, n: Note)
    requires 0 < j <= |rs| && rs[j - 1] == Fields(n) && n.id != ""
    ensures Replay(Empty(), rs[..j]) == Replay(Empty(), rs[..j - 1]).Set(n.id, n)
  {
    assert rs[..j][..j - 1] == rs[..j - 1];
  }

  /** The `i`-th saved record is the note stored under the `i`-th key, which carries that key as its id. */
  lemma SavedEntry(m: OrderedMap<Note>, rs: seq<Record>, i: nat)
    requires m.Valid() && KeyedById(m) && SavedFrom(rs, m) && i < |rs|
    ensures m.keys[i] in m.vals && rs[i] == Fields(m.vals[m.keys[i]])
    ensures m.vals[m.keys[i]].id == m.keys[i] != ""
  {
  }

  /** All entries of `m` make `m` itself. */
  lemma PrefixWhole(m: OrderedMap<Note>)
    requires m.Valid()
    ensures Prefix(m, |m.keys|) == m
  {
    assert m.keys[..|m.keys|] == m.keys;
    assert Prefix(m, |m.keys|).vals == m.vals;
  }

  /** `rs` is the record list saved for `m`: one note record per key, in key order. */
  ghost predicate SavedFrom(rs: seq<Record>, m: OrderedMap<Note>)
    requires m.Valid()
  {
    |rs| == |m.keys| && forall i :: 0 <= i < |rs| ==> rs[i] == Fields(m.vals[m.keys[i]])
  }

  lemma LoadNothing(m: OrderedMap<Note>, rs: seq<Record>)
    requires m.Valid()
    ensures Replay(Empty(), rs[..0]) == Prefix(m, 0)
  {
    assert rs[..0] == [];
    assert m.keys[..0] == [];
    assert Prefix(m, 0).vals == map[];
  }

  /** Loading the first `j` saved records gives the first `j` entries of the map. */
  lemma {:induction false} LoadPrefix(m: OrderedMap<Note>, rs: seq<Record>, j: nat)
    requires m.Valid() && KeyedById(m) && SavedFrom(rs, m) && j <= |rs|
    ensures Replay(Empty(), rs[..j]) == Prefix(m, j)
    decreases j
  {
    if j == 0 {
      LoadNothing(m, rs);
    } else {
      var k := m.keys[j - 1];
      SavedEntry(m, rs, j - 1);
      PrefixStep(m, j - 1);
      calc {
        Replay(Empty(), rs[..j]);
      == { ReplayStep(rs, j, m.vals[k]); }
        Replay(Empty(), rs[..j - 1]).Set(k, m.vals[k]);
      == { LoadPrefix(m, rs, j - 1); }
        Prefix(m, j - 1).Set(k, m.vals[k]);
      }
    }
  }

  /**
   * Saving then loading gives back the same map, ids, order and all, for
   * every map the store can hold.
   */
  lemma SaveThenLoad(m: OrderedMap<Note>)
    requires m.Valid() && KeyedById(m)
    ensures Load(Some(Persist(m.Values()))) == m
  {
    var rs := Persist(m.Values());
    assert SavedFrom(rs, m);
    LoadPrefix(m, rs, |m.keys|);
    assert rs[..|m.keys|] == rs;
    PrefixWhole(m);
  }

  // ---------------------------------------------------------------------------
  // Update as written: the whole request body is spread over the stored note
  // ---------------------------------------------------------------------------

  /** An update body that may carry any of the note's fields, not only title and content. */
  datatype Patch = Patch(
    id: Option<string>, title: Option<string>, content: Option<string>,
    createdAt: Option<string>, updatedAt: Option<string>)

  /** `{...existing, ...changes, updatedAt: now}` with every field of the body spread. */
  function SpreadUpdate(existing: Note, patch: Patch, now: string): (r: Note)
    ensures r.updatedAt == now
    ensures patch.id.None? ==> r.id == existing.id
    ensures patch.id.Some? ==> r.id == patch.id.value
    ensures patch.createdAt.None? ==> r.createdAt == existing.createdAt
    ensures patch.createdAt.Some? ==> r.createdAt == patch.createdAt.value
  {
    Note(patch.id.GetOr(existing.id), patch.title.GetOr(existing.title), patch.content.GetOr(existing.content),
         patch.createdAt.GetOr(existing.createdAt), now)
  }

  /**
   * A body carrying `id` leaves a note whose id differs from its key; after a
   * save and a restart the note is found under the other id, not the old one.
   */
  lemma SpreadUpdateLosesNoteOnRestart()
    ensures
      var before := Note("k-0", "t", "c", "T0", "T0");
      var after := SpreadUpdate(before, Patch(Some("x-0"), Some("t"), None, None, None), "T1");
      var m := Empty<Note>().Set("k-0", after);
      && !KeyedById(m)
      && Load(Some(Persist(m.Values()))).Get("k-0") == None
      && Load(Some(Persist(m.Values()))).Get("x-0") == Some(after)
  {
    var before := Note("k-0", "t", "c", "T0", "T0");
    var after := SpreadUpdate(before, Patch(Some("x-0"), Some("t"), None, None, None), "T1");
    var m := Empty<Note>().Set("k-0", after);
    var rs := Persist(m.Values());
    assert rs == [Fields(after)];
    assert rs[..0] == [];
    assert Replay(Empty(), rs) == Accept(Replay(Empty(), rs[..0]), rs[0]);
    assert Replay(Empty(), rs) == Empty<Note>().Set("x-0", after);
  }

  // ---------------------------------------------------------------------------
  // The store
  // ---------------------------------------------------------------------------

  class NoteStore {
    /** The in-memory map from id to note, in insertion order. */
    var notes: OrderedMap<Note>
    /** What the persistence file holds, as loading would read it. */
    var disk: Option<seq<Record>>

    ghost predicate Valid()
      reads this
    {
      notes.Valid() && KeyedById(notes)
    }

    /** Start from an empty map and load whatever the file holds. */
    constructor (file: Option<seq<Record>>)
      ensures Valid()
      ensures notes == Load(file) && disk == file
    {
      notes := Empty();
      disk := file;
      new;
      LoadFromDisk(file);
    }

    /** Set every record whose id is present and non-empty, in file order. */
    method LoadFromDisk(file: Option<seq<Record>>)
      requires Valid()
      modifies this`notes
      ensures Valid()
      ensures notes == if file.Some? then Replay(old(notes), file.value) else old(notes)
    {
      if file.Some? {
        var records := file.value;
        var i := 0;
        while i < |records|
          invariant i <= |records|
          invariant Valid()
          invariant notes == Replay(old(notes), records[..i])
        {
          var n := records[i];
          if n.Fields? && n.note.id != "" {
            notes := notes.Set(n.note.id, n.note);
          }
          assert records[..i + 1][..i] == records[..i];
          i := i + 1;
        }
        assert records[..i] == records;
      }
    }

    /** Linear probing from counter 0 for an id that is not a key yet. */
    method GenerateId(base: string) returns (id: string)
      requires Valid()
      ensures id !in notes.vals
      ensures FirstFree(base, notes.vals.Keys, id)
    {
      var counter := 0;
      id := Candidate(base, counter);
      while notes.Get(id).Some?
        invariant id == Candidate(base, counter)
        invariant forall j: nat :: j < counter ==> Candidate(base, j) in notes.vals
        invariant counter <= |notes.vals|
        decreases |notes.vals| - counter
      {
        ProbeBound(base, notes.vals.Keys, counter + 1);
        counter := counter + 1;
        id := Candidate(base, counter);
      }
    }

    /** Rewrite the whole file with the notes in insertion order, unless the write fails. */
    method SaveToDisk(w: WriteOutcome)
      requires Valid()
      modifies this`disk
      ensures disk == FileAfter(w, old(disk), List())
    {
      match w {
        case Written => disk := Some(Persist(notes.Values()));
        case Refused =>
        case Truncated => disk := None;
      }
    }

    method Create(title: string, content: string, base: string, now: string, w: WriteOutcome)
      returns (note: Note)
      requires Valid()
      modifies this
      ensures Valid()
      ensures note.title == title && note.content == content
      ensures note.createdAt == now && note.updatedAt == now
      ensures note.id !in old(notes.vals)
      ensures FirstFree(base, old(notes.vals.Keys), note.id)
      ensures notes.vals == old(notes.vals)[note.id := note]
      ensures List() == old(List()) + [note]
      ensures Get(note.id) == Some(note)
      ensures disk == FileAfter(w, old(disk), List())
    {
      var id := GenerateId(base);
      note := Note(id, title, content, now, now);
      SetValues(notes, id, note);
      notes := notes.Set(id, note);
      SaveToDisk(w);
    }

    /** All notes, in insertion order. */
    function List(): (r: seq<Note>)
      reads this
      requires Valid()
      ensures |r| == |notes.keys| == |notes.vals|
      ensures forall i :: 0 <= i < |r| ==> r[i] == notes.vals[notes.keys[i]]
      ensures forall i :: 0 <= i < |r| ==> r[i].id in notes.vals && notes.vals[r[i].id] == r[i]
      ensures forall i, j :: 0 <= i < j < |r| ==> r[i].id != r[j].id
      ensures forall id :: id in notes.vals ==> notes.vals[id] in r
    {
      ValuesContainAll(notes);
      notes.Values()
    }

    /** The note stored under `id`, or nothing (`null`). */
    function Get(id: string): (r: Option<Note>)
      reads this
      requires Valid()
      ensures r.Some? <==> id in notes.vals
      ensures r.Some? ==> r.value == notes.vals[id] && r.value.id == id
    {
      notes.Get(id)
    }

    /**
     * Overwrite the provided fields and stamp `updatedAt`; an absent id is
     * reported as nothing (`null`) and changes nothing.
     */
    method Update(id: string, changes: Changes, now: string, w: WriteOutcome)
      returns (r: Option<Note>)
      requires Valid()
      modifies this
      ensures Valid()
      ensures r.None? <==> id !in old(notes.vals)
      ensures r.None? ==> notes == old(notes) && disk == old(disk)
      ensures r.Some? ==>
        var before := old(notes.vals)[id];
        && r.value.id == id
        && r.value.title == changes.title.GetOr(before.title)
        && r.value.content == changes.content.GetOr(before.content)
        && r.value.createdAt == before.createdAt
        && r.value.updatedAt == now
      ensures r.Some? ==> notes.keys == old(notes.keys) && notes.vals == old(notes.vals)[id := r.value]
      ensures r.Some? ==> List() == old(List())[old(notes.IndexOf(id)) := r.value]
      ensures r.Some? ==> disk == FileAfter(w, old(disk), List())
    {
      var existing := notes.Get(id);
      if existing.None? {
        return None;
      }
      var e := existing.value;
      var updated := Note(e.id, changes.title.GetOr(e.title), changes.content.GetOr(e.content), e.createdAt, now);
      SetValues(notes, id, updated);
      notes := notes.Set(id, updated);
      SaveToDisk(w);
      r := Some(updated);
    }

    /** Remove the note under `id`; report whether there was one. */
    method Delete(id: string, w: WriteOutcome) returns (existed: bool)
      requires Valid()
      modifies this
      ensures Valid()
      ensures existed <==> id in old(notes.vals)
      ensures Get(id) == None
      ensures notes.vals == old(notes.vals) - {id}
      ensures existed ==> |notes.vals| == old(|notes.vals|) - 1
      ensures existed ==>
        var i := old(notes.IndexOf(id));
        List() == old(List())[..i] + old(List())[i + 1..]
      ensures existed ==> disk == FileAfter(w, old(disk), List())
      ensures !existed ==> notes == old(notes) && disk == old(disk)
    {
      existed := notes.Get(id).Some?;
      if existed {
        DeleteValues(notes, id);
      }
      notes := notes.Delete(id);
      if existed {
        SaveToDisk(w);
      }
    }
  }

  // ---------------------------------------------------------------------------
  // Clients of the store
  // ---------------------------------------------------------------------------

  /** Deleting twice: the first call reports whether the note was there, the second always fails. */
  method DeleteTwice(store: NoteStore, id: string, firstWrite: WriteOutcome, secondWrite: WriteOutcome)
    returns (first: bool, second: bool)
    requires store.Valid()
    modifies store
    ensures store.Valid()
    ensures first <==> id in old(store.notes.vals)
    ensures !second
    ensures store.notes.vals == old(store.notes.vals) - {id}
  {
    first := store.Delete(id, firstWrite);
    second := store.Delete(id, secondWrite);
  }

  /** A restart after a successful save comes back with the same notes in the same order. */
  method Restart(store: NoteStore) returns (restarted: NoteStore)
    requires store.Valid() && store.disk == Some(Persist(store.List()))
    ensures restarted.Valid()
    ensures restarted.notes == store.notes
    ensures restarted.List() == store.List()
  {
    SaveThenLoad(store.notes);
    restarted := new NoteStore(store.disk);
  }
}
