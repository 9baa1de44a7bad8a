/** The rasterization cache: five optional slots and a write cursor. A lookup
    scans the slots for an entry with the queried face and area; a miss
    rasterizes, writes the new entry at the cursor and advances the cursor.

    The pure functions below are the specification (one step of `get`, and
    runs of several steps); the class `FacePixmapStore` is the store itself,
    an array updated in place, and its methods are proved against them.

    Two versions of the cursor update are modelled. `NextIndexAsWritten` is the
    source's: it returns to 0 only from `CacheSize`, so the cursor reaches 5
    and the sixth successful miss indexes past the end of the 5-slot array
    (a panic); `GetAsWrittenSpec` and `SixthMissPanics` show this. `NextIndex`
    is the circular update that returns to 0 after the last slot, and `GetSpec` and the class
    method `Get` use it. */
module PixmapStore {
  import opened Common
  import FaceSvg
  import Raster

  const CacheSize: nat := 5

  /** A cached rasterization: the buffer and the face and area it was made for. */
  datatype PixmapCache = PixmapCache(pixmap: Raster.Pixmap, area: Rect, face: FaceSvg.Face)

  /** The buffer of an entry is `area.width` pixels wide and `2 * area.height`
      pixels tall, and holds exactly that many pixels. */
  predicate Consistent(e: PixmapCache)
  {
    e.pixmap.width == e.area.width as nat && e.pixmap.height == 2 * e.area.height as nat
    && Raster.WellSized(e.pixmap)
  }

  /** A slot answers a query when it holds an entry with that face and area. */
  predicate Matches(slot: Option<PixmapCache>, face: FaceSvg.Face, area: Rect)
  {
    slot.Some? && slot.value.face == face && slot.value.area == area
  }

  /** The first slot at or after `from` that answers the query. */
  function FindFrom(slots: seq<Option<PixmapCache>>, face: FaceSvg.Face, area: Rect, from: nat)
    : (r: Option<nat>)
    requires from <= |slots|
    ensures r.Some? ==> from <= r.value < |slots| && Matches(slots[r.value], face, area)
    ensures r.Some? ==> forall j :: from <= j < r.value ==> !Matches(slots[j], face, area)
    ensures r.None? ==> forall j :: from <= j < |slots| ==> !Matches(slots[j], face, area)
    decreases |slots| - from
  {
    if from == |slots| then None
    else if Matches(slots[from], face, area) then Some(from)
    else FindFrom(slots, face, area, from + 1)
  }

  /** `get_from_cache`: the entry in the first slot that answers the query;
      empty slots never do. */
  function Lookup(slots: seq<Option<PixmapCache>>, face: FaceSvg.Face, area: Rect)
    : (r: Option<PixmapCache>)
    ensures r.Some? ==> r.value.face == face && r.value.area == area
    ensures r.Some? ==> exists k :: 0 <= k < |slots| && slots[k] == r
                                    && forall j :: 0 <= j < k ==> !Matches(slots[j], face, area)
    ensures r.None? <==> forall k :: 0 <= k < |slots| ==> !Matches(slots[k], face, area)
  {
    match FindFrom(slots, face, area, 0)
    case Some(k) => slots[k]
    case None => None
  }

  /** What a miss may produce for a query: nothing, or an entry for that
      face and area whose buffer has the size the entry records. */
  predicate Answers(made: Option<PixmapCache>, face: FaceSvg.Face, area: Rect)
  {
    made.Some? ==> made.value.face == face && made.value.area == area && Consistent(made.value)
  }

  /** The miss path before the write: rasterize the face's document at
      `area.width` x `2 * area.height` and wrap the buffer as an entry. */
  function Rasterize(face: FaceSvg.Face, area: Rect, engine: Raster.Engine): (r: Option<PixmapCache>)
    ensures r.Some? <==> engine.parses(FaceSvg.ToSvg(face)) && area.width > 0 && area.height > 0
    ensures Answers(r, face, area)
  {
    match Raster.GetSvgPixmap(FaceSvg.ToSvg(face), area.width as nat, 2 * area.height as nat, engine)
    case None => None
    case Some(p) => Some(PixmapCache(p, area, face))
  }

  // ---------------------------------------------------------------------------
  // The store as a value

  datatype Store = Store(caches: seq<Option<PixmapCache>>, index: u8)

  /** `FacePixmapStore::default`: five empty slots, cursor at 0. */
  const DefaultStore: Store := Store(seq(CacheSize, _ => None), 0)

  /** Five slots, the cursor on one of them, every entry consistent. */
  predicate ValidStore(s: Store)
  {
    |s.caches| == CacheSize && (s.index as int) < CacheSize
    && forall k :: 0 <= k < |s.caches| && s.caches[k].Some? ==> Consistent(s.caches[k].value)
  }

  /** The cursor update as the source writes it: below `CacheSize` it only
      climbs, so it reaches `CacheSize`, one past the last slot, before it
      returns to 0. */
  function NextIndexAsWritten(index: u8): (r: u8)
    requires index < 0xFF
    ensures (index as int) < CacheSize ==> r as int == index as int + 1
    ensures index as int == CacheSize ==> r == 0
  {
    if index as int == CacheSize then 0 else index + 1
  }

  /** The circular cursor update. */
  function NextIndex(index: u8): (r: u8)
    requires (index as int) < CacheSize
    ensures r as int == (index as int + 1) % CacheSize
  {
    if index as int == CacheSize - 1 then 0 else index + 1
  }

  /** What a call of `get` returns when it does not panic, and the panic. */
  datatype Outcome = Returned(entry: Option<PixmapCache>) | Panicked

  /* The specification functions below take `made`, what rasterizing the
     query would produce, as a parameter: it is consulted only on a miss, as
     the source calls the rasterizer only then, and `FacePixmapStore` passes
     `Rasterize(face, area, engine)`. */

  /** One call of `get` as the source writes it. */
  function GetAsWrittenSpec(s: Store, face: FaceSvg.Face, area: Rect, made: Option<PixmapCache>)
    : (r: (Store, Outcome))
    requires |s.caches| == CacheSize
    ensures |r.0.caches| == CacheSize
    ensures r.1.Panicked? <==>
              Lookup(s.caches, face, area).None? && made.Some? && s.index as int >= CacheSize
  {
    var hit := Lookup(s.caches, face, area);
    if hit.Some? then (s, Returned(hit))
    else
      match made
      case None => (s, Returned(None))
      case Some(e) =>
        if s.index as int >= |s.caches| then (s, Panicked)
        else (Store(s.caches[s.index as int := Some(e)], NextIndexAsWritten(s.index)), Returned(Some(e)))
  }

  /** One call of `get` with the circular cursor. */
  function GetSpec(s: Store, face: FaceSvg.Face, area: Rect, made: Option<PixmapCache>)
    : (r: (Store, Option<PixmapCache>))
    requires ValidStore(s) && Answers(made, face, area)
    ensures ValidStore(r.0)
  {
    var hit := Lookup(s.caches, face, area);
    if hit.Some? then (s, hit)
    else
      match made
      case None => (s, None)
      case Some(e) => (Store(s.caches[s.index as int := Some(e)], NextIndex(s.index)), Some(e))
  }

  // ---------------------------------------------------------------------------
  // One call

  /** A hit returns the cached entry and a failed rasterization returns
      nothing; in both cases neither the slots nor the cursor change. */
  lemma GetWithoutInsert(s: Store, face: FaceSvg.Face, area: Rect, made: Option<PixmapCache>)
    requires ValidStore(s) && Answers(made, face, area)
    requires Lookup(s.caches, face, area).Some? || made.None?
    ensures GetSpec(s, face, area, made).0 == s
    ensures GetSpec(s, face, area, made).1 == Lookup(s.caches, face, area)
  {
  }

  /** A successful miss writes only the slot under the cursor, with the new
      entry for the queried face and area whose buffer is `area.width` x
      `2 * area.height`, and moves the cursor one slot on, circularly. */
  lemma GetMissInserts(s: Store, face: FaceSvg.Face, area: Rect, made: Option<PixmapCache>)
    requires ValidStore(s) && Answers(made, face, area)
    requires Lookup(s.caches, face, area).None? && made.Some?
    ensures var (s', r) := GetSpec(s, face, area, made);
            r == made && r.value.face == face && r.value.area == area
            && r.value.pixmap.width == area.width as nat
            && r.value.pixmap.height == 2 * area.height as nat
            && |r.value.pixmap.pixels| == area.width as nat * (2 * area.height as nat)
            && s'.caches[s.index] == r
            && (forall k :: 0 <= k < CacheSize && k != s.index as int ==> s'.caches[k] == s.caches[k])
            && s'.index as int == (s.index as int + 1) % CacheSize
  {
  }

  /** The miss path with the vector engine: when the engine accepts the
      face's document and the area is not empty, a miss returns a new entry
      and stores it; otherwise it returns nothing and changes nothing. */
  lemma GetMissRasterizes(s: Store, face: FaceSvg.Face, area: Rect, engine: Raster.Engine)
    requires ValidStore(s) && Lookup(s.caches, face, area).None?
    ensures var made := Rasterize(face, area, engine);
            var (s', r) := GetSpec(s, face, area, made);
            (r.Some? <==> engine.parses(FaceSvg.ToSvg(face)) && area.width > 0 && area.height > 0)
            && (r.Some? ==> r.value.face == face && r.value.area == area && s'.caches[s.index] == r)
            && (r.None? ==> s' == s)
  {
  }

  /** Writing an entry that does not answer a query cannot make that query hit. */
  lemma LookupAfterUnrelatedWrite(slots: seq<Option<PixmapCache>>, k: nat, e: PixmapCache,
                                  face: FaceSvg.Face, area: Rect)
    requires k < |slots|
    requires Lookup(slots, face, area).None?
    requires e.face != face || e.area != area
    ensures Lookup(slots[k := Some(e)], face, area).None?
  {
  }

  /** Writing the answer into a slot when no slot answered makes that slot the
      one a lookup finds. */
  lemma LookupAfterInsert(slots: seq<Option<PixmapCache>>, k: nat, e: PixmapCache)
    requires k < |slots|
    requires Lookup(slots, e.face, e.area).None?
    ensures Lookup(slots[k := Some(e)], e.face, e.area) == Some(e)
  {
    var slots' := slots[k := Some(e)];
    assert Matches(slots'[k], e.face, e.area);
    assert forall j :: 0 <= j < k ==> slots'[j] == slots[j];
  }

  /** Right after a `get` that returned an entry, the same query is a hit on
      that entry and changes nothing, whatever rasterizing would give. */
  lemma {:induction false} GetTwiceHits(s: Store, face: FaceSvg.Face, area: Rect,
                                        made: Option<PixmapCache>, again: Option<PixmapCache>)
    requires ValidStore(s) && Answers(made, face, area) && Answers(again, face, area)
    requires GetSpec(s, face, area, made).1.Some?
    ensures var (s', r) := GetSpec(s, face, area, made);
            GetSpec(s', face, area, again) == (s', r)
  {
    var (s', r) := GetSpec(s, face, area, made);
    if Lookup(s.caches, face, area).None? {
      LookupAfterInsert(s.caches, s.index as nat, r.value);
    }
  }

  /** As written, a hit or a failed rasterization changes nothing and
      returns the lookup's answer, as the circular version does. */
  lemma AsWrittenWithoutInsert(s: Store, face: FaceSvg.Face, area: Rect, made: Option<PixmapCache>)
    requires |s.caches| == CacheSize
    requires Lookup(s.caches, face, area).Some? || made.None?
    ensures GetAsWrittenSpec(s, face, area, made) == (s, Returned(Lookup(s.caches, face, area)))
  {
  }

  /** As written, a successful miss with the cursor on a slot writes only
      that slot and moves the cursor up by one, without wrapping. */
  lemma AsWrittenMissInserts(s: Store, face: FaceSvg.Face, area: Rect, made: Option<PixmapCache>)
    requires |s.caches| == CacheSize && (s.index as int) < CacheSize
    requires Lookup(s.caches, face, area).None? && made.Some?
    ensures var (s', o) := GetAsWrittenSpec(s, face, area, made);
            o == Returned(made)
            && s'.caches[s.index] == made
            && (forall k :: 0 <= k < CacheSize && k != s.index as int ==> s'.caches[k] == s.caches[k])
            && s'.index as int == s.index as int + 1
  {
  }

  /** On a valid store the two versions of `get` return the same answer and
      leave the same slots; their cursors differ only after a write from the
      last slot, where the source's goes to `CacheSize` and the circular one
      to 0. */
  lemma AsWrittenAgreesWithCorrected(s: Store, face: FaceSvg.Face, area: Rect, made: Option<PixmapCache>)
    requires ValidStore(s) && Answers(made, face, area)
    ensures var (w, o) := GetAsWrittenSpec(s, face, area, made);
            var (c, r) := GetSpec(s, face, area, made);
            o == Returned(r) && w.caches == c.caches
            && ((s.index as int) < CacheSize - 1 ==> w.index == c.index)
            && (s.index as int == CacheSize - 1 && Lookup(s.caches, face, area).None? && made.Some? ==>
                  w.index as int == CacheSize && c.index == 0)
  {
  }

  // ---------------------------------------------------------------------------
  // Runs of calls

  /** `made[i]` answers the query for `areas[i]`. */
  predicate AnswersAll(made: seq<Option<PixmapCache>>, face: FaceSvg.Face, areas: seq<Rect>)
  {
    |made| == |areas| && forall i :: 0 <= i < |areas| ==> Answers(made[i], face, areas[i])
  }

  /** Successive `get`s for the same face and a sequence of areas. */
  function Run(s: Store, face: FaceSvg.Face, areas: seq<Rect>, made: seq<Option<PixmapCache>>)
    : (r: (Store, seq<Option<PixmapCache>>))
    requires ValidStore(s) && AnswersAll(made, face, areas)
    ensures ValidStore(r.0) && |r.1| == |areas|
    decreases |areas|
  {
    if areas == [] then (s, [])
    else
      var (s1, e) := GetSpec(s, face, areas[0], made[0]);
      var (s2, es) := Run(s1, face, areas[1..], made[1..]);
      (s2, [e] + es)
  }

  /** Successive `get`s as the source writes them; a panic ends the run. */
  function RunAsWritten(s: Store, face: FaceSvg.Face, areas: seq<Rect>, made: seq<Option<PixmapCache>>)
    : (r: (Store, seq<Outcome>))
    requires |s.caches| == CacheSize && |made| == |areas|
    ensures |r.0.caches| == CacheSize && |r.1| <= |areas|
    decreases |areas|
  {
    if areas == [] then (s, [])
    else
      var (s1, o) := GetAsWrittenSpec(s, face, areas[0], made[0]);
      if o.Panicked? then (s1, [o])
      else
        var (s2, os) := RunAsWritten(s1, face, areas[1..], made[1..]);
        (s2, [o] + os)
  }

  /** All areas differ from each other, none is cached yet, and each one
      rasterizes successfully: every `get` of the run misses and inserts. */
  ghost predicate FreshMisses(s: Store, face: FaceSvg.Face, areas: seq<Rect>, made: seq<Option<PixmapCache>>)
  {
    AnswersAll(made, face, areas)
    && (forall i :: 0 <= i < |made| ==> made[i].Some?)
    && (forall i :: 0 <= i < |areas| ==> Lookup(s.caches, face, areas[i]).None?)
    && (forall i, j :: 0 <= i < j < |areas| ==> areas[i] != areas[j])
  }

  /** A call that returned a new entry for `area`. */
  predicate Inserted(o: Outcome, area: Rect)
  {
    o.Returned? && o.entry.Some? && o.entry.value.area == area
  }

  /** With the source's cursor, fresh misses from cursor `i` climb: while
      there is room, each returns its new entry and the cursor moves to
      `i + 1`, `i + 2`, ..., never back to 0 on the way up to `CacheSize`; the
      first miss taken with the cursor at `CacheSize` indexes past the last
      slot and panics. */
  lemma {:induction false} AsWrittenRun(s: Store, face: FaceSvg.Face, areas: seq<Rect>,
                                        made: seq<Option<PixmapCache>>)
    requires |s.caches| == CacheSize && s.index as int <= CacheSize
    requires FreshMisses(s, face, areas, made)
    ensures var (s', os) := RunAsWritten(s, face, areas, made);
            var room := CacheSize - s.index as int;
            (|areas| <= room ==> |os| == |areas| && s'.index as int == s.index as int + |areas|)
            && (|areas| > room ==> |os| == room + 1 && os[room] == Panicked)
            && forall i :: 0 <= i < |os| && i < room ==> Inserted(os[i], areas[i])
    decreases |areas|
  {
    if areas != [] {
      if s.index as int < CacheSize {
        AsWrittenFreshStep(s, face, areas, made);
        var (s1, o) := GetAsWrittenSpec(s, face, areas[0], made[0]);
        AsWrittenRun(s1, face, areas[1..], made[1..]);
        RunAsWrittenUnfold(s, face, areas, made);
        InsertedShift(o, RunAsWritten(s1, face, areas[1..], made[1..]).1, areas, CacheSize - s.index as int);
      } else {
        assert GetAsWrittenSpec(s, face, areas[0], made[0]) == (s, Panicked);
      }
    }
  }

  /** Prepending a call that inserted `areas[0]` to a run that inserted
      `areas[1..]` in its first `room - 1` calls. */
  lemma InsertedShift(o: Outcome, os: seq<Outcome>, areas: seq<Rect>, room: int)
    requires |os| < |areas| && Inserted(o, areas[0])
    requires forall i :: 0 <= i < |os| && i < room - 1 ==> Inserted(os[i], areas[1..][i])
    ensures forall i :: 0 <= i < |[o] + os| && i < room ==> Inserted(([o] + os)[i], areas[i])
  {
    forall i | 0 <= i < |[o] + os| && i < room
      ensures Inserted(([o] + os)[i], areas[i])
    {
      if i > 0 {
        assert ([o] + os)[i] == os[i - 1] && areas[i] == areas[1..][i - 1];
      }
    }
  }

  lemma RunAsWrittenUnfold(s: Store, face: FaceSvg.Face, areas: seq<Rect>, made: seq<Option<PixmapCache>>)
    requires |s.caches| == CacheSize && |made| == |areas| && areas != []
    requires GetAsWrittenSpec(s, face, areas[0], made[0]).1.Returned?
    ensures var (s1, o) := GetAsWrittenSpec(s, face, areas[0], made[0]);
            RunAsWritten(s, face, areas, made)
            == (RunAsWritten(s1, face, areas[1..], made[1..]).0, [o] + RunAsWritten(s1, face, areas[1..], made[1..]).1)
  {
  }

  /** Writing the first entry of a fresh run into the slot under the cursor
      leaves the rest of the run fresh. */
  lemma FreshAfterInsert(s: Store, s1: Store, face: FaceSvg.Face, areas: seq<Rect>, made: seq<Option<PixmapCache>>)
    requires areas != [] && FreshMisses(s, face, areas, made) && (s.index as int) < |s.caches|
    requires s1.caches == s.caches[s.index as int := made[0]]
    ensures FreshMisses(s1, face, areas[1..], made[1..])
  {
    var e := made[0].value;
    var rest := areas[1..];
    forall i | 0 <= i < |rest|
      ensures Lookup(s1.caches, face, rest[i]).None?
    {
      assert rest[i] == areas[i + 1];
      LookupAfterUnrelatedWrite(s.caches, s.index as nat, e, face, rest[i]);
    }
    assert AnswersAll(made[1..], face, rest) by {
      forall i | 0 <= i < |rest|
        ensures Answers(made[1..][i], face, rest[i])
      {
        assert made[1..][i] == made[i + 1] && rest[i] == areas[i + 1];
      }
    }
  }

  /** The first of a run of fresh misses, taken with room left: it inserts its
      entry, the cursor climbs by one, and the rest of the run is still fresh. */
  lemma AsWrittenFreshStep(s: Store, face: FaceSvg.Face, areas: seq<Rect>, made: seq<Option<PixmapCache>>)
    requires |s.caches| == CacheSize && (s.index as int) < CacheSize
    requires areas != [] && FreshMisses(s, face, areas, made)
    ensures var (s1, o) := GetAsWrittenSpec(s, face, areas[0], made[0]);
            Inserted(o, areas[0]) && s1.index == s.index + 1 && FreshMisses(s1, face, areas[1..], made[1..])
  {
    var s1 := Store(s.caches[s.index as int := made[0]], s.index + 1);
    assert GetAsWrittenSpec(s, face, areas[0], made[0]) == (s1, Returned(made[0]));
    FreshAfterInsert(s, s1, face, areas, made);
  }

  /** With the circular cursor, every `get` of a run of fresh misses returns
      its new entry, and the cursor ends `|areas|` slots on, modulo five:
      the run never panics, however long it is. */
  lemma {:induction false} FreshRun(s: Store, face: FaceSvg.Face, areas: seq<Rect>, made: seq<Option<PixmapCache>>)
    requires ValidStore(s) && FreshMisses(s, face, areas, made)
    ensures var (s', es) := Run(s, face, areas, made);
            s'.index as int == (s.index as int + |areas|) % CacheSize
            && forall i :: 0 <= i < |es| ==> es[i] == made[i]
    decreases |areas|
  {
    if areas != [] {
      var s1 := Store(s.caches[s.index as int := made[0]], NextIndex(s.index));
      assert GetSpec(s, face, areas[0], made[0]) == (s1, made[0]);
      FreshAfterInsert(s, s1, face, areas, made);
      FreshRun(s1, face, areas[1..], made[1..]);
      ModAdd(s.index as nat + 1, |areas| - 1);
      var es1 := Run(s1, face, areas[1..], made[1..]).1;
      assert Run(s, face, areas, made).1 == [made[0]] + es1;
      forall i | 0 < i < |areas|
        ensures ([made[0]] + es1)[i] == made[i]
      {
        assert ([made[0]] + es1)[i] == es1[i - 1] && made[1..][i - 1] == made[i];
      }
    }
  }

  lemma ModAdd(a: nat, m: nat)
    ensures (a % CacheSize + m) % CacheSize == (a + m) % CacheSize
  {
    var q := a / CacheSize;
    assert a + m == q * CacheSize + (a % CacheSize + m);
  }

  /** The slot the `j`-th write of a run lands in when the cursor starts at
      `start` and moves circularly. */
  function WriteSlot(start: u8, j: int): (k: int)
    ensures 0 <= k < CacheSize
  {
    (start as int + j) % CacheSize
  }

  /** `after` is `before` once `n` entries `made[0]`, `made[1]`, ... have been
      written from its cursor on: the `j`-th of the last five is in
      `WriteSlot(before.index, j)`, and a slot none of the writes reached
      keeps what it held. */
  ghost predicate SlotsAfter(before: Store, after: Store, made: seq<Option<PixmapCache>>, n: int)
  {
    |before.caches| == CacheSize && |after.caches| == CacheSize && 0 <= n <= |made|
    && (forall j :: 0 <= j < n && n - CacheSize <= j ==> after.caches[WriteSlot(before.index, j)] == made[j])
    && (forall k :: 0 <= k < CacheSize && (forall j :: 0 <= j < n ==> WriteSlot(before.index, j) != k) ==>
          after.caches[k] == before.caches[k])
  }

  /** Writing `made[0]` under the cursor and then the rest from the next
      slot on is writing all of `made` from the cursor on. */
  lemma SlotsAfterStep(s: Store, s1: Store, s': Store, made: seq<Option<PixmapCache>>, n: int)
    requires ValidStore(s) && 1 <= n <= |made|
    requires s1.caches == s.caches[s.index as int := made[0]] && s1.index == NextIndex(s.index)
    requires SlotsAfter(s1, s', made[1..], n - 1)
    ensures SlotsAfter(s, s', made, n)
  {
    var i := s.index as int;
    forall j | 0 <= j < n - 1
      ensures WriteSlot(s1.index, j) == WriteSlot(s.index, j + 1)
    {
      ModAdd(i + 1, j);
    }
    forall j | 0 <= j < n && n - CacheSize <= j
      ensures s'.caches[WriteSlot(s.index, j)] == made[j]
    {
      if j == 0 {
        assert WriteSlot(s.index, 0) == i;
        assert forall j' :: 0 <= j' < n - 1 ==> WriteSlot(s1.index, j') != i;
      } else {
        assert made[1..][j - 1] == made[j];
      }
    }
    forall k | 0 <= k < CacheSize && (forall j :: 0 <= j < n ==> WriteSlot(s.index, j) != k)
      ensures s'.caches[k] == s.caches[k]
    {
      assert WriteSlot(s.index, 0) != k;
      assert forall j' :: 0 <= j' < n - 1 ==> WriteSlot(s1.index, j') != k;
    }
  }

  /** Where a run of fresh misses leaves its entries: `made` written from the
      starting cursor on, circularly. */
  lemma {:induction false} FreshRunSlots(s: Store, face: FaceSvg.Face, areas: seq<Rect>,
                                         made: seq<Option<PixmapCache>>)
    requires ValidStore(s) && FreshMisses(s, face, areas, made)
    ensures SlotsAfter(s, Run(s, face, areas, made).0, made, |areas|)
    decreases |areas|
  {
    if areas != [] {
      var s1 := Store(s.caches[s.index as int := made[0]], NextIndex(s.index));
      assert GetSpec(s, face, areas[0], made[0]) == (s1, made[0]);
      FreshAfterInsert(s, s1, face, areas, made);
      FreshRunSlots(s1, face, areas[1..], made[1..]);
      var s' := Run(s1, face, areas[1..], made[1..]).0;
      assert Run(s, face, areas, made).0 == s';
      SlotsAfterStep(s, s1, s', made, |areas|);
    }
  }

  /** Five consecutive writes reach every slot. */
  lemma LastFiveCover(start: u8, n: int, k: int) returns (j: int)
    requires 0 <= k < CacheSize && CacheSize <= n
    ensures n - CacheSize <= j < n && WriteSlot(start, j) == k
  {
    var i := start as int;
    var d := (k - i - n) % CacheSize;
    j := n - CacheSize + d;
    assert i + j == k + CacheSize * ((k - i - n) / CacheSize * -1 - 1) by {
      assert k - i - n == CacheSize * ((k - i - n) / CacheSize) + d;
    }
  }

  /** `slot` holds one of the entries made by the last five calls of a run of
      `n`. */
  predicate FromLastFive(slot: Option<PixmapCache>, made: seq<Option<PixmapCache>>, n: int)
  {
    exists j :: 0 <= j < |made| && j < n && n - CacheSize <= j && slot == made[j]
  }

  /** After a run of fresh misses every slot holds one of the last five
      entries or what it held before the run. */
  lemma FreshRunSlotSources(s: Store, face: FaceSvg.Face, areas: seq<Rect>, made: seq<Option<PixmapCache>>)
    requires ValidStore(s) && FreshMisses(s, face, areas, made)
    ensures var s' := Run(s, face, areas, made).0;
            forall k :: 0 <= k < CacheSize ==> s'.caches[k] == s.caches[k] || FromLastFive(s'.caches[k], made, |areas|)
  {
    var s' := Run(s, face, areas, made).0;
    var i := s.index as int;
    var n := |areas|;
    FreshRunSlots(s, face, areas, made);
    forall k | 0 <= k < CacheSize
      ensures s'.caches[k] == s.caches[k] || FromLastFive(s'.caches[k], made, n)
    {
      if n >= CacheSize {
        var j := LastFiveCover(s.index, n, k);
        assert s'.caches[WriteSlot(s.index, j)] == made[j];
      } else if exists j :: 0 <= j < n && WriteSlot(s.index, j) == k {
        var j :| 0 <= j < n && WriteSlot(s.index, j) == k;
        assert s'.caches[WriteSlot(s.index, j)] == made[j];
      }
    }
  }

  /** The circular store keeps the five most recent entries: after a run of
      fresh misses, a lookup of one of the last five areas finds its entry,
      and a lookup of an earlier one misses, its entry having been
      overwritten. */
  lemma FreshRunKeepsLastFive(s: Store, face: FaceSvg.Face, areas: seq<Rect>, made: seq<Option<PixmapCache>>)
    requires ValidStore(s) && FreshMisses(s, face, areas, made)
    ensures var s' := Run(s, face, areas, made).0;
            forall t :: 0 <= t < |areas| ==>
              Lookup(s'.caches, face, areas[t]) == if |areas| - CacheSize <= t then made[t] else None
  {
    var s' := Run(s, face, areas, made).0;
    FreshRunSlots(s, face, areas, made);
    FreshRunSlotSources(s, face, areas, made);
    forall t | 0 <= t < |areas|
      ensures Lookup(s'.caches, face, areas[t]) == if |areas| - CacheSize <= t then made[t] else None
    {
      OnlyOwnEntryAnswers(s, s', face, areas, made, t);
      if |areas| - CacheSize <= t {
        assert Matches(s'.caches[WriteSlot(s.index, t)], face, areas[t]);
      }
    }
  }

  /** After the run, a slot that answers the query for `areas[t]` holds the
      entry made for it, and that entry is one of the last five. */
  lemma OnlyOwnEntryAnswers(s: Store, s': Store, face: FaceSvg.Face, areas: seq<Rect>,
                            made: seq<Option<PixmapCache>>, t: nat)
    requires |s.caches| == |s'.caches| == CacheSize && FreshMisses(s, face, areas, made) && t < |areas|
    requires forall k :: 0 <= k < CacheSize ==> s'.caches[k] == s.caches[k] || FromLastFive(s'.caches[k], made, |areas|)
    ensures forall k :: 0 <= k < CacheSize && Matches(s'.caches[k], face, areas[t]) ==>
              s'.caches[k] == made[t] && |areas| - CacheSize <= t
  {
    forall k | 0 <= k < CacheSize && Matches(s'.caches[k], face, areas[t])
      ensures s'.caches[k] == made[t] && |areas| - CacheSize <= t
    {
      if s'.caches[k] != s.caches[k] {
        var j :| 0 <= j < |made| && j < |areas| && |areas| - CacheSize <= j && s'.caches[k] == made[j];
        assert areas[j] == areas[t];
      }
    }
  }

  /** Starting from the default store, six `get`s for six different areas
      (six terminal sizes, say) that all rasterize make the sixth index slot
      5 of the 5-slot array: the first five return their entries and the
      sixth panics. */
  lemma SixthMissPanics(face: FaceSvg.Face, areas: seq<Rect>, made: seq<Option<PixmapCache>>)
    requires |areas| == CacheSize + 1 && AnswersAll(made, face, areas)
    requires forall i :: 0 <= i < |made| ==> made[i].Some?
    requires forall i, j :: 0 <= i < j < |areas| ==> areas[i] != areas[j]
    ensures var (_, os) := RunAsWritten(DefaultStore, face, areas, made);
            |os| == CacheSize + 1 && os[CacheSize] == Panicked
            && forall i :: 0 <= i < CacheSize ==> Inserted(os[i], areas[i])
  {
    forall i | 0 <= i < |areas|
      ensures Lookup(DefaultStore.caches, face, areas[i]).None?
    {
      assert forall k :: 0 <= k < CacheSize ==> DefaultStore.caches[k] == None;
    }
    AsWrittenRun(DefaultStore, face, areas, made);
  }

  /** With the circular cursor the same six `get`s do not panic: the sixth
      entry overwrites the first, which a later lookup no longer finds, and
      the other five stay cached. */
  lemma SixthMissEvictsFirst(face: FaceSvg.Face, areas: seq<Rect>, made: seq<Option<PixmapCache>>)
    requires |areas| == CacheSize + 1 && AnswersAll(made, face, areas)
    requires forall i :: 0 <= i < |made| ==> made[i].Some?
    requires forall i, j :: 0 <= i < j < |areas| ==> areas[i] != areas[j]
    ensures var (s', es) := Run(DefaultStore, face, areas, made);
            es == made
            && Lookup(s'.caches, face, areas[0]).None?
            && forall t :: 1 <= t <= CacheSize ==> Lookup(s'.caches, face, areas[t]) == made[t]
  {
    forall i | 0 <= i < |areas|
      ensures Lookup(DefaultStore.caches, face, areas[i]).None?
    {
      assert forall k :: 0 <= k < CacheSize ==> DefaultStore.caches[k] == None;
    }
    FreshRun(DefaultStore, face, areas, made);
    FreshRunKeepsLastFive(DefaultStore, face, areas, made);
  }

  /** The same with the vector engine: six different non-empty areas, an
      engine that accepts the face's document, and the entries it makes. */
  lemma SixthMissPanicsWithEngine(face: FaceSvg.Face, areas: seq<Rect>, engine: Raster.Engine,
                                  made: seq<Option<PixmapCache>>)
    requires |areas| == CacheSize + 1 && engine.parses(FaceSvg.ToSvg(face))
    requires forall i :: 0 <= i < |areas| ==> areas[i].width > 0 && areas[i].height > 0
    requires forall i, j :: 0 <= i < j < |areas| ==> areas[i] != areas[j]
    requires |made| == |areas| && forall i :: 0 <= i < |areas| ==> made[i] == Rasterize(face, areas[i], engine)
    ensures var (_, os) := RunAsWritten(DefaultStore, face, areas, made);
            |os| == CacheSize + 1 && os[CacheSize] == Panicked
            && forall i :: 0 <= i < CacheSize ==> Inserted(os[i], areas[i])
  {
    SixthMissPanics(face, areas, made);
  }

  /** A terminal resized to `a`, redrawn at `a`, then resized to `b`, from
      the default store: the first `get` rasterizes into slot 0, the second
      is a hit on that entry, the third rasterizes into slot 1. */
  lemma ResizeScenario(face: FaceSvg.Face, a: Rect, b: Rect, ea: PixmapCache, again: Option<PixmapCache>,
                       eb: PixmapCache)
    requires a != b
    requires Answers(Some(ea), face, a) && Answers(again, face, a) && Answers(Some(eb), face, b)
    ensures Run(DefaultStore, face, [a, a, b], [Some(ea), again, Some(eb)])
            == (Store([Some(ea), Some(eb), None, None, None], 2), [Some(ea), Some(ea), Some(eb)])
  {
    var s0 := DefaultStore;
    assert Lookup(s0.caches, face, a).None? && Lookup(s0.caches, face, b).None? by {
      assert forall k :: 0 <= k < CacheSize ==> s0.caches[k] == None;
    }
    var s1 := Store(s0.caches[0 := Some(ea)], 1);
    assert GetSpec(s0, face, a, Some(ea)) == (s1, Some(ea));
    LookupAfterInsert(s0.caches, 0, ea);
    assert GetSpec(s1, face, a, again) == (s1, Some(ea));
    LookupAfterUnrelatedWrite(s0.caches, 0, ea, face, b);
    var s2 := Store(s1.caches[1 := Some(eb)], 2);
    assert GetSpec(s1, face, b, Some(eb)) == (s2, Some(eb));
    assert s2.caches == [Some(ea), Some(eb), None, None, None];
    var areas := [a, a, b];
    var made := [Some(ea), again, Some(eb)];
    assert areas[1..] == [a, b] && made[1..] == [again, Some(eb)];
    assert [b][1..] == [] && [Some(eb)][1..] == [];
    assert Run(s2, face, [], []) == (s2, []);
    assert [Some(eb)] + [] == [Some(eb)];
    assert Run(s1, face, [b], [Some(eb)]) == (s2, [Some(eb)]);
    assert [a, b][1..] == [b] && [again, Some(eb)][1..] == [Some(eb)];
    assert [Some(ea)] + [Some(eb)] == [Some(ea), Some(eb)];
    assert Run(s1, face, [a, b], [again, Some(eb)]) == (s2, [Some(ea), Some(eb)]);
    assert [Some(ea)] + [Some(ea), Some(eb)] == [Some(ea), Some(ea), Some(eb)];
  }

  /** The same with the vector engine, for the normal face on a 40 x 20
      terminal that is then widened to 41 x 20: the first miss rasterizes a
      40 x 40 buffer of 1600 pixels; the redraw at 40 x 20 is a hit whatever
      the rasterizer would have answered; the 41 x 20 miss fills the next
      slot and leaves the 40 x 20 entry in place. */
  lemma ViewportScenario(engine: Raster.Engine, again: Option<PixmapCache>)
    requires engine.parses(FaceSvg.ToSvg(FaceSvg.Normal))
    requires Answers(again, FaceSvg.Normal, Rect(0, 0, 40, 20))
    ensures var a := Rect(0, 0, 40, 20);
            var b := Rect(0, 0, 41, 20);
            var ea := Rasterize(FaceSvg.Normal, a, engine);
            var eb := Rasterize(FaceSvg.Normal, b, engine);
            ea.Some? && eb.Some?
            && ea.value.pixmap.width == 40 && ea.value.pixmap.height == 40 && |ea.value.pixmap.pixels| == 1600
            && Run(DefaultStore, FaceSvg.Normal, [a, a, b], [ea, again, eb])
               == (Store([ea, eb, None, None, None], 2), [ea, ea, eb])
  {
    var a := Rect(0, 0, 40, 20);
    var b := Rect(0, 0, 41, 20);
    var ea := Rasterize(FaceSvg.Normal, a, engine);
    var eb := Rasterize(FaceSvg.Normal, b, engine);
    ResizeScenario(FaceSvg.Normal, a, b, ea.value, again, eb.value);
  }

  // ---------------------------------------------------------------------------
  // The store itself

  /** `FacePixmapStore`: the slots are an array written in place and the
      cursor a field. Entries are values, so the `Rc` sharing of the source
      is not visible here. */
  class FacePixmapStore {
    var caches: array<Option<PixmapCache>>
    var index: u8

    /** The store as a value. */
    function State(): Store
      reads this, caches
    {
      Store(caches[..], index)
    }

    ghost predicate Valid()
      reads this, caches
    {
      ValidStore(State())
    }

    /** `FacePixmapStore::default`. */
    constructor ()
      ensures Valid() && fresh(caches) && State() == DefaultStore
    {
      caches := new Option<PixmapCache>[CacheSize](_ => None);
      index := 0;
      new;
      assert caches[..] == DefaultStore.caches;
    }

    /** `get` with the circular cursor: a hit returns the cached entry, a miss
        rasterizes and, on success, overwrites the slot under the cursor and
        moves the cursor on. */
    method Get(face: FaceSvg.Face, area: Rect, engine: Raster.Engine) returns (r: Option<PixmapCache>)
      requires Valid()
      modifies this`index, caches
      ensures Valid()
      ensures (State(), r) == GetSpec(old(State()), face, area, Rasterize(face, area, engine))
    {
      var hit := Lookup(caches[..], face, area);
      if hit.Some? {
        return hit;
      }
      var made := Rasterize(face, area, engine);
      if made.None? {
        return None;
      }
      caches[index] := made;
      index := NextIndex(index);
      r := made;
    }

    /** `get` as the source writes it: the write `caches[index]` is checked
        against the array's length, and an index past the end is the panic. */
    method GetAsWritten(face: FaceSvg.Face, area: Rect, engine: Raster.Engine) returns (out: Outcome)
      requires caches.Length == CacheSize
      modifies this`index, caches
      ensures caches.Length == CacheSize
      ensures (State(), out) == GetAsWrittenSpec(old(State()), face, area, Rasterize(face, area, engine))
    {
      var hit := Lookup(caches[..], face, area);
      if hit.Some? {
        return Returned(hit);
      }
      var made := Rasterize(face, area, engine);
      if made.None? {
        return Returned(None);
      }
      if index as int >= caches.Length {
        return Panicked;
      }
      caches[index] := made;
      index := NextIndexAsWritten(index);
      out := Returned(made);
    }
  }
}
