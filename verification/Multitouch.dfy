/**
  The HID multitouch driver: assigning contacts to slots, event by event, and telling the input
  layer at the end of each frame which slots are touched.

  `Panel` is the device state; `React` is one HID event.  `MtDevice` is the imperative driver.
  The theorems speak about every run of events: touching slots never share a contact, contacts
  keep their slot, and exactly when a frame shows just the contacts it lists.
 */
module Multitouch {
  import opened Wrappers

  /** struct mt_slot */
  datatype Slot = Slot(x: int, y: int, p: int, w: int, h: int, contactId: int, touch: bool, seen: bool)

  const ZERO_SLOT := Slot(0, 0, 0, 0, 0, 0, false, false)

  /** The MT_QUIRK_* bits of the device class that the event path looks at. */
  datatype Quirks = Quirks(
    notSeenMeansUp: bool,
    slotIsContactId: bool,
    cypress: bool,
    slotIsContactNumber: bool,
    validIsInRange: bool,
    validIsConfidence: bool,
    slotIsContactIdMinusOne: bool)

  const CLS_DEFAULT := Quirks(true, false, false, false, false, false, false)

  /** The classes that look a contact's slot up by its id. */
  predicate SlotsByLookup(q: Quirks)
  {
    !q.slotIsContactId && !q.cypress && !q.slotIsContactNumber && !q.slotIsContactIdMinusOne
  }

  datatype Usage =
    | InRange | TipSwitch | Confidence | ContactId | TipPressure
    | X | Y | Width | Height | ContactCount | Other

  /** One HID event; lastField says that its field has the index last_field_index. */
  datatype Event = Event(usage: Usage, value: int, lastField: bool)

  /** struct mt_device; base and frame are a history: the slots at the last emit, and the valid
      contacts completed since, in order. */
  datatype Panel = Panel(
    cur: Slot,
    curValid: bool,
    numReceived: byte,
    numExpected: byte,
    slots: seq<Slot>,
    base: seq<Slot>,
    frame: seq<Slot>)

  function Init(maxContacts: byte): Panel
  {
    var slots := seq(maxContacts, i => ZERO_SLOT);
    Panel(ZERO_SLOT, false, 0, 0, slots, slots, [])
  }

  // ---------- slots ----------

  /** The first touching slot with this contact, from index i on; |slots| if there is none. */
  function FirstTouching(slots: seq<Slot>, id: int, i: nat): (r: nat)
    requires i <= |slots|
    ensures i <= r <= |slots|
    ensures r < |slots| ==> slots[r].touch && slots[r].contactId == id
    ensures forall k :: i <= k < r ==> !(slots[k].touch && slots[k].contactId == id)
    decreases |slots| - i
  {
    if i == |slots| || (slots[i].contactId == id && slots[i].touch) then i else FirstTouching(slots, id, i + 1)
  }

  /** The first slot that is neither touching nor seen. */
  function FirstFree(slots: seq<Slot>, i: nat): (r: nat)
    requires i <= |slots|
    ensures i <= r <= |slots|
    ensures r < |slots| ==> !slots[r].seen && !slots[r].touch
    ensures forall k :: i <= k < r ==> slots[k].seen || slots[k].touch
    decreases |slots| - i
  {
    if i == |slots| || (!slots[i].seen && !slots[i].touch) then i else FirstFree(slots, i + 1)
  }

  /** find_slot_from_contactid */
  function FindSlot(slots: seq<Slot>, id: int): int
  {
    if FirstTouching(slots, id, 0) < |slots| then FirstTouching(slots, id, 0)
    else if FirstFree(slots, 0) < |slots| then FirstFree(slots, 0)
    else -1
  }

  /** mt_compute_slot, with cypress_compute_slot */
  function ComputeSlot(q: Quirks, p: Panel): int
  {
    if q.slotIsContactId then p.cur.contactId
    else if q.cypress then (if p.cur.contactId != 0 || p.numReceived == 0 then p.cur.contactId else -1)
    else if q.slotIsContactNumber then p.numReceived
    else if q.slotIsContactIdMinusOne then p.cur.contactId - 1
    else FindSlot(p.slots, p.cur.contactId)
  }

  function Put(slots: seq<Slot>, i: int, s: Slot): (r: seq<Slot>)
    ensures |r| == |slots|
  {
    if 0 <= i < |slots| then slots[i := s] else slots
  }

  /** mt_complete_slot */
  function CompleteSlot(q: Quirks, p: Panel): Panel
  {
    var cur := p.cur.(seen := true);
    var p1 := p.(cur := cur, numReceived := (p.numReceived + 1) % 256);
    if p.curValid then p1.(slots := Put(p.slots, ComputeSlot(q, p), cur), frame := p.frame + [cur])
    else p1
  }

  function Lift(q: Quirks, s: Slot): Slot
  {
    s.(touch := s.touch && (s.seen || !q.notSeenMeansUp), seen := false)
  }

  function LiftAll(q: Quirks, slots: seq<Slot>): (r: seq<Slot>)
    ensures |r| == |slots| && forall i :: 0 <= i < |slots| ==> r[i] == Lift(q, slots[i])
  {
    seq(|slots|, i requires 0 <= i < |slots| => Lift(q, slots[i]))
  }

  /** mt_emit_event */
  function EmitEvent(q: Quirks, p: Panel): Panel
  {
    var slots := LiftAll(q, p.slots);
    p.(slots := slots, numReceived := 0, base := slots, frame := [])
  }

  // ---------- events ----------

  /** The switch of mt_event. */
  function Store(q: Quirks, p: Panel, e: Event): Panel
  {
    match e.usage
    case InRange => if q.validIsInRange then p.(curValid := e.value != 0) else p
    case TipSwitch =>
      p.(curValid := if q.notSeenMeansUp then e.value != 0 else p.curValid,
         cur := p.cur.(touch := e.value != 0))
    case Confidence => if q.validIsConfidence then p.(curValid := e.value != 0) else p
    case ContactId => p.(cur := p.cur.(contactId := e.value))
    case TipPressure => p.(cur := p.cur.(p := e.value))
    case X => p.(cur := p.cur.(x := e.value))
    case Y => p.(cur := p.cur.(y := e.value))
    case Width => p.(cur := p.cur.(w := e.value))
    case Height => p.(cur := p.cur.(h := e.value))
    case ContactCount => if e.value != 0 then p.(numExpected := e.value % 256) else p
    case Other => p
  }

  function AfterSlot(q: Quirks, lastSlotField: Usage, p: Panel, e: Event): Panel
  {
    var p1 := Store(q, p, e);
    if e.usage == lastSlotField then CompleteSlot(q, p1) else p1
  }

  predicate Emits(q: Quirks, lastSlotField: Usage, p: Panel, e: Event)
  {
    var p1 := AfterSlot(q, lastSlotField, p, e);
    e.usage != Other && e.lastField && p1.numReceived >= p1.numExpected
  }

  /** mt_event; unknown usages are left to the generic handling. */
  function React(q: Quirks, lastSlotField: Usage, p: Panel, e: Event): Panel
  {
    if e.usage == Other then p
    else
      var p1 := AfterSlot(q, lastSlotField, p, e);
      if e.lastField && p1.numReceived >= p1.numExpected then EmitEvent(q, p1) else p1
  }

  function Run(q: Quirks, lastSlotField: Usage, maxContacts: byte, events: seq<Event>): Panel
  {
    if events == [] then Init(maxContacts)
    else React(q, lastSlotField, Run(q, lastSlotField, maxContacts, events[..|events| - 1]), events[|events| - 1])
  }

  // ---------- touching contacts ----------

  /** No two touching slots share a contact. */
  predicate Unique(slots: seq<Slot>)
  {
    forall i, j :: 0 <= i < j < |slots| && slots[i].touch && slots[j].touch ==> slots[i].contactId != slots[j].contactId
  }

  function TouchIds(slots: seq<Slot>): set<int>
  {
    set i | 0 <= i < |slots| && slots[i].touch :: slots[i].contactId
  }

  function SeenIds(slots: seq<Slot>): set<int>
  {
    set i | 0 <= i < |slots| && slots[i].touch && slots[i].seen :: slots[i].contactId
  }

  function Ids(contacts: seq<Slot>): set<int>
  {
    set i | 0 <= i < |contacts| :: contacts[i].contactId
  }

  /** The slots after some valid contacts of one frame. */
  function Fold(slots: seq<Slot>, contacts: seq<Slot>): (r: seq<Slot>)
    ensures |r| == |slots|
  {
    if contacts == [] then slots
    else
      var before := Fold(slots, contacts[..|contacts| - 1]);
      var c := contacts[|contacts| - 1];
      Put(before, FindSlot(before, c.contactId), c)
  }

  lemma PutKeepsUnique(slots: seq<Slot>, c: Slot)
    requires Unique(slots)
    ensures Unique(Put(slots, FindSlot(slots, c.contactId), c))
  {
  }

  /** What placing a contact does to the touching contacts. */
  lemma PutTouches(slots: seq<Slot>, c: Slot)
    requires Unique(slots) && c.touch && c.seen
    requires forall i :: 0 <= i < |slots| && slots[i].seen ==> slots[i].touch
    ensures
      var r := Put(slots, FindSlot(slots, c.contactId), c);
      && (forall i :: 0 <= i < |r| && r[i].seen ==> r[i].touch)
      && if c.contactId !in TouchIds(slots) && (forall i :: 0 <= i < |slots| ==> slots[i].touch) then r == slots
         else TouchIds(r) == TouchIds(slots) + {c.contactId} && SeenIds(r) == SeenIds(slots) + {c.contactId}
  {
    var k := FindSlot(slots, c.contactId);
    var r := Put(slots, k, c);
    if k >= 0 {
      forall id ensures id in TouchIds(r) <==> id in TouchIds(slots) + {c.contactId} {
        if id in TouchIds(slots) {
          var i :| 0 <= i < |slots| && slots[i].touch && slots[i].contactId == id;
          assert r[if i == k then k else i].contactId == id;
        }
        assert r[k].touch && r[k].contactId == c.contactId;
      }
      forall id ensures id in SeenIds(r) <==> id in SeenIds(slots) + {c.contactId} {
        if id in SeenIds(slots) {
          var i :| 0 <= i < |slots| && slots[i].touch && slots[i].seen && slots[i].contactId == id;
          assert r[if i == k then k else i].contactId == id;
        }
        assert r[k].seen && r[k].contactId == c.contactId;
      }
    }
  }

  lemma {:induction false} FoldKeepsUnique(slots: seq<Slot>, contacts: seq<Slot>)
    requires Unique(slots)
    ensures Unique(Fold(slots, contacts))
  {
    hide Put, FindSlot, Unique;
    if contacts != [] {
      var n := |contacts| - 1;
      FoldKeepsUnique(slots, contacts[..n]);
      PutKeepsUnique(Fold(slots, contacts[..n]), contacts[n]);
    }
  }

  /** With unique contacts, the touching contacts are as many as the touching slots. */
  lemma {:induction false} TouchCount(slots: seq<Slot>)
    requires Unique(slots)
    ensures |TouchIds(slots)| <= |slots|
    ensures |TouchIds(slots)| == |slots| <==> forall i :: 0 <= i < |slots| ==> slots[i].touch
  {
    if slots != [] {
      var n := |slots| - 1;
      TouchCount(slots[..n]);
      if slots[n].touch {
        assert slots[n].contactId !in TouchIds(slots[..n]);
        assert TouchIds(slots) == TouchIds(slots[..n]) + {slots[n].contactId};
      } else {
        assert TouchIds(slots) == TouchIds(slots[..n]);
      }
    }
  }

  /** The slots r after the given contacts show all of them exactly when all fit. */
  ghost predicate Shows(base: seq<Slot>, contacts: seq<Slot>, r: seq<Slot>)
  {
    && (forall i :: 0 <= i < |r| && r[i].seen ==> r[i].touch)
    && TouchIds(r) == TouchIds(base) + SeenIds(r) && SeenIds(r) <= Ids(contacts)
    && (SeenIds(r) == Ids(contacts) <==> |TouchIds(base) + Ids(contacts)| <= |base|)
  }

  /** Every contact of a frame finds a slot exactly when the contacts that were touching before and
      those of the frame are together no more than there are slots. */
  lemma {:induction false} FoldShows(base: seq<Slot>, contacts: seq<Slot>)
    requires Unique(base) && forall i :: 0 <= i < |base| ==> !base[i].seen
    requires forall i :: 0 <= i < |contacts| ==> contacts[i].touch && contacts[i].seen
    ensures
      Shows(base, contacts, Fold(base, contacts))
  {
    var r := Fold(base, contacts);
    FoldKeepsUnique(base, contacts);
    TouchCount(r);
    if contacts == [] {
      TouchCount(base);
      assert Ids(contacts) == {} && SeenIds(r) == {} && TouchIds(base) + Ids(contacts) == TouchIds(base);
    } else {
      var n := |contacts| - 1;
      FoldShows(base, contacts[..n]);
      FoldShowsStep(base, contacts);
    }
  }

  /** What one more contact of a frame does, in terms of the touching and the seen contacts. */
  lemma FoldTouches(base: seq<Slot>, contacts: seq<Slot>) returns (full: bool)
    requires contacts != [] && Unique(base)
    requires contacts[|contacts| - 1].touch && contacts[|contacts| - 1].seen
    requires var before := Fold(base, contacts[..|contacts| - 1]);
      forall i :: 0 <= i < |before| && before[i].seen ==> before[i].touch
    ensures
      var before, r := Fold(base, contacts[..|contacts| - 1]), Fold(base, contacts);
      var id := contacts[|contacts| - 1].contactId;
      && (forall i :: 0 <= i < |r| && r[i].seen ==> r[i].touch)
      && |TouchIds(r)| <= |base|
      && (full ==> r == before && id !in TouchIds(before) && |TouchIds(before)| == |base|)
      && (!full ==> TouchIds(r) == TouchIds(before) + {id} && SeenIds(r) == SeenIds(before) + {id})
  {
    hide Put, FindSlot, Unique, TouchIds, SeenIds;
    var n := |contacts| - 1;
    var before := Fold(base, contacts[..n]);
    FoldKeepsUnique(base, contacts[..n]);
    FoldKeepsUnique(base, contacts);
    PutTouches(before, contacts[n]);
    TouchCount(before);
    TouchCount(Fold(base, contacts));
    full := contacts[n].contactId !in TouchIds(before) && forall i :: 0 <= i < |before| ==> before[i].touch;
  }

  lemma FoldShowsStep(base: seq<Slot>, contacts: seq<Slot>)
    requires contacts != [] && Unique(base)
    requires contacts[|contacts| - 1].touch && contacts[|contacts| - 1].seen
    requires Shows(base, contacts[..|contacts| - 1], Fold(base, contacts[..|contacts| - 1]))
    ensures Shows(base, contacts, Fold(base, contacts))
  {
    hide Unique, TouchIds, SeenIds, Ids, Fold;
    var n := |contacts| - 1;
    var id := contacts[n].contactId;
    var before := Fold(base, contacts[..n]);
    IdsStep(contacts);
    var full := FoldTouches(base, contacts);
    assert !full ==> TouchIds(Fold(base, contacts)) == TouchIds(base) + SeenIds(before) + {id};
    ShowsSets(TouchIds(base), SeenIds(before), Ids(contacts[..n]), id, |base|, full);
    assert TouchIds(base) + Ids(contacts) == TouchIds(base) + Ids(contacts[..n]) + {id};
  }

  /** The counting behind FoldShowsStep: s and p are the shown and the listed contacts so far, c is
      listed next and is shown unless all n slots are taken by others. */
  lemma ShowsSets(t: set<int>, s: set<int>, p: set<int>, c: int, n: nat, full: bool)
    requires s <= p && (s == p <==> |t + p| <= n)
    requires full ==> |t + s| == n && c !in t + s
    requires !full ==> |t + s + {c}| <= n
    ensures var s' := if full then s else s + {c};
      s' <= p + {c} && (s' == p + {c} <==> |t + p + {c}| <= n)
  {
    var all := t + p + {c};
    SubsetSize(t + s + {c}, all);
    SubsetSize(t + p, all);
    if !full && s + {c} == p + {c} {
      assert t + s + {c} == all;
    }
  }

  lemma SubsetSize<T>(a: set<T>, b: set<T>)
    requires a <= b
    ensures |a| <= |b|
  {
    assert b == a + (b - a);
  }

  lemma IdsStep(contacts: seq<Slot>)
    requires contacts != []
    ensures Ids(contacts) == Ids(contacts[..|contacts| - 1]) + {contacts[|contacts| - 1].contactId}
  {
    var n := |contacts| - 1;
    forall id | id in Ids(contacts[..n]) + {contacts[n].contactId} ensures id in Ids(contacts) {
      if id in Ids(contacts[..n]) {
        var i :| 0 <= i < n && contacts[..n][i].contactId == id;
        assert contacts[i].contactId == id;
      }
    }
  }

  /** A touching contact keeps its slot while a frame is received, unless it is reported lifted. */
  lemma {:induction false} FoldKeepsSlot(base: seq<Slot>, contacts: seq<Slot>, i: nat)
    requires Unique(base) && i < |base| && base[i].touch
    requires forall k :: 0 <= k < |contacts| ==>
      contacts[k].seen && (contacts[k].contactId == base[i].contactId ==> contacts[k].touch)
    ensures
      var r := Fold(base, contacts);
      && r[i].touch && r[i].contactId == base[i].contactId
      && (base[i].contactId in Ids(contacts) ==> r[i].seen)
  {
    if contacts != [] {
      var n := |contacts| - 1;
      FoldKeepsSlot(base, contacts[..n], i);
      IdsStep(contacts);
      FoldKeepsUnique(base, contacts[..n]);
      PutKeepsSlot(Fold(base, contacts[..n]), contacts[n], i);
    }
  }

  lemma PutKeepsSlot(slots: seq<Slot>, c: Slot, i: nat)
    requires Unique(slots) && i < |slots| && slots[i].touch
    ensures
      var r := Put(slots, FindSlot(slots, c.contactId), c);
      r[i] == if c.contactId == slots[i].contactId then c else slots[i]
  {
    var k := FirstTouching(slots, c.contactId, 0);
    if c.contactId == slots[i].contactId {
      assert k == i;
    }
  }

  // ---------- runs ----------

  /** What every run keeps, for the classes that look slots up by contact. */
  ghost predicate LookupInv(p: Panel)
  {
    && Unique(p.base) && p.slots == Fold(p.base, p.frame)
    && (forall i :: 0 <= i < |p.base| ==> !p.base[i].seen)
    && (forall i :: 0 <= i < |p.frame| ==> p.frame[i].seen)
  }

  /** And for the default class, where the tip switch also says whether the contact is valid. */
  ghost predicate DefaultInv(p: Panel)
  {
    && LookupInv(p) && p.curValid == p.cur.touch
    && (forall i :: 0 <= i < |p.frame| ==> p.frame[i].touch)
  }

  lemma FoldMore(slots: seq<Slot>, contacts: seq<Slot>, c: Slot)
    ensures Fold(slots, contacts + [c]) == Put(Fold(slots, contacts), FindSlot(Fold(slots, contacts), c.contactId), c)
  {
    assert (contacts + [c])[..|contacts|] == contacts;
  }

  lemma AfterSlotKeeps(q: Quirks, lastSlotField: Usage, p: Panel, e: Event)
    requires SlotsByLookup(q) && LookupInv(p)
    ensures LookupInv(AfterSlot(q, lastSlotField, p, e))
    ensures q == CLS_DEFAULT && DefaultInv(p) ==> DefaultInv(AfterSlot(q, lastSlotField, p, e))
  {
    hide Fold, FindSlot, Put, Unique;
    var p1 := Store(q, p, e);
    FoldMore(p.base, p.frame, p1.cur.(seen := true));
  }

  lemma EmitKeeps(q: Quirks, p: Panel)
    requires LookupInv(p)
    ensures LookupInv(EmitEvent(q, p))
    ensures DefaultInv(p) ==> DefaultInv(EmitEvent(q, p))
  {
    FoldKeepsUnique(p.base, p.frame);
    LiftKeepsUnique(q, p.slots);
  }

  lemma LiftKeepsUnique(q: Quirks, slots: seq<Slot>)
    requires Unique(slots)
    ensures Unique(LiftAll(q, slots))
  {
  }

  lemma {:induction false} RunKeeps(q: Quirks, lastSlotField: Usage, maxContacts: byte, events: seq<Event>)
    requires SlotsByLookup(q)
    ensures LookupInv(Run(q, lastSlotField, maxContacts, events))
    ensures q == CLS_DEFAULT ==> DefaultInv(Run(q, lastSlotField, maxContacts, events))
  {
    hide AfterSlot, EmitEvent;
    if events != [] {
      var n := |events| - 1;
      RunKeeps(q, lastSlotField, maxContacts, events[..n]);
      var p := Run(q, lastSlotField, maxContacts, events[..n]);
      AfterSlotKeeps(q, lastSlotField, p, events[n]);
      EmitKeeps(q, AfterSlot(q, lastSlotField, p, events[n]));
    }
  }

  /** In every reachable state no two touching slots share a contact. */
  lemma TouchingSlotsAreUnique(q: Quirks, lastSlotField: Usage, maxContacts: byte, events: seq<Event>)
    requires SlotsByLookup(q)
    ensures Unique(Run(q, lastSlotField, maxContacts, events).slots)
  {
    RunKeeps(q, lastSlotField, maxContacts, events);
    var p := Run(q, lastSlotField, maxContacts, events);
    FoldKeepsUnique(p.base, p.frame);
  }

  /** A contact that touches at the end of one frame is found in its slot at every moment of the
      next one, unless that has reported it lifted. */
  lemma ContactHoldsSlot(q: Quirks, lastSlotField: Usage, maxContacts: byte, events: seq<Event>, i: nat)
    requires SlotsByLookup(q)
    requires Continues(Run(q, lastSlotField, maxContacts, events), i)
    ensures
      var p := Run(q, lastSlotField, maxContacts, events);
      i < |p.slots| && p.slots[i].touch && p.slots[i].contactId == p.base[i].contactId
  {
    RunKeeps(q, lastSlotField, maxContacts, events);
    var p := Run(q, lastSlotField, maxContacts, events);
    FoldKeepsSlot(p.base, p.frame, i);
  }

  /** The contact that touched in slot i at the end of the last frame is not reported lifted in this one. */
  ghost predicate Continues(p: Panel, i: nat)
  {
    && i < |p.base| && p.base[i].touch
    && forall k :: 0 <= k < |p.frame| && p.frame[k].contactId == p.base[i].contactId ==> p.frame[k].touch
  }

  /** A contact that touches at the end of one frame and is reported touching in the next keeps its
      slot: event e ends the frame, and the contact is still touching in the slot it had. */
  lemma ContactKeepsSlot(q: Quirks, lastSlotField: Usage, maxContacts: byte, events: seq<Event>, e: Event, i: nat)
    requires SlotsByLookup(q)
    requires Emits(q, lastSlotField, Run(q, lastSlotField, maxContacts, events), e)
    requires Continues(AfterSlot(q, lastSlotField, Run(q, lastSlotField, maxContacts, events), e), i)
    ensures
      var p := AfterSlot(q, lastSlotField, Run(q, lastSlotField, maxContacts, events), e);
      var r := Run(q, lastSlotField, maxContacts, events + [e]);
      var id := p.base[i].contactId;
      id in Ids(p.frame) || !q.notSeenMeansUp ==>
        i < |r.slots| && r.base == r.slots && r.slots[i].touch && r.slots[i].contactId == id
  {
    hide AfterSlot, Run, Fold, Unique;
    var before := Run(q, lastSlotField, maxContacts, events);
    var p := AfterSlot(q, lastSlotField, before, e);
    RunKeeps(q, lastSlotField, maxContacts, events);
    AfterSlotKeeps(q, lastSlotField, before, e);
    FoldKeepsSlot(p.base, p.frame, i);
    RunMore(q, lastSlotField, maxContacts, events, e);
  }

  /** The meaning of a frame, for the default class: after the event that ends it the touching
      contacts are among those completed as valid since the previous frame, and they are all of
      those exactly when the contacts touching before and in the frame fit the slots together. */
  lemma FrameMeaning(lastSlotField: Usage, maxContacts: byte, events: seq<Event>, e: Event)
    requires Emits(CLS_DEFAULT, lastSlotField, Run(CLS_DEFAULT, lastSlotField, maxContacts, events), e)
    ensures
      var p := AfterSlot(CLS_DEFAULT, lastSlotField, Run(CLS_DEFAULT, lastSlotField, maxContacts, events), e);
      var r := Run(CLS_DEFAULT, lastSlotField, maxContacts, events + [e]);
      && TouchIds(r.slots) <= Ids(p.frame)
      && (TouchIds(r.slots) == Ids(p.frame) <==> |TouchIds(p.base) + Ids(p.frame)| <= |p.slots|)
      && (forall i :: 0 <= i < |r.slots| ==> !r.slots[i].seen) && r.numReceived == 0 && r.frame == []
  {
    hide AfterSlot, Run;
    RunKeeps(CLS_DEFAULT, lastSlotField, maxContacts, events);
    var before := Run(CLS_DEFAULT, lastSlotField, maxContacts, events);
    var p := AfterSlot(CLS_DEFAULT, lastSlotField, before, e);
    AfterSlotKeeps(CLS_DEFAULT, lastSlotField, before, e);
    FoldShows(p.base, p.frame);
    LiftShowsSeen(p.slots);
    RunMore(CLS_DEFAULT, lastSlotField, maxContacts, events, e);
  }

  lemma RunMore(q: Quirks, lastSlotField: Usage, maxContacts: byte, events: seq<Event>, e: Event)
    ensures Run(q, lastSlotField, maxContacts, events + [e])
         == React(q, lastSlotField, Run(q, lastSlotField, maxContacts, events), e)
  {
    assert (events + [e])[..|events|] == events;
  }

  lemma LiftShowsSeen(slots: seq<Slot>)
    ensures TouchIds(LiftAll(CLS_DEFAULT, slots)) == SeenIds(slots)
  {
    var r := LiftAll(CLS_DEFAULT, slots);
    forall id ensures id in TouchIds(r) <==> id in SeenIds(slots) {
      if id in SeenIds(slots) {
        var i :| 0 <= i < |slots| && slots[i].touch && slots[i].seen && slots[i].contactId == id;
        assert r[i].touch && r[i].contactId == id;
      }
      if id in TouchIds(r) {
        var i :| 0 <= i < |r| && r[i].touch && r[i].contactId == id;
        assert slots[i].touch && slots[i].seen;
      }
    }
  }

  function Touch(id: int): seq<Event>
  {
    [Event(ContactId, id, false), Event(TipSwitch, 1, true)]
  }

  /** One slot and two frames of one finger each: the second frame's finger is lost, because the
      slot is freed only at the end of that frame. */
  lemma SecondFingerIsLost()
    ensures TouchIds(Run(CLS_DEFAULT, TipSwitch, 1, Touch(1)).slots) == {1}
    ensures TouchIds(Run(CLS_DEFAULT, TipSwitch, 1, Touch(1) + Touch(2)).slots) == {}
  {
    assert Run(CLS_DEFAULT, TipSwitch, 1, []) == Init(1);
    hide Run, React, Init;
    RunTouch([], 1);
    assert [] + Touch(1) == Touch(1);
    OneFingerFrame(Init(1), 1);
    RunTouch(Touch(1), 2);
    OneFingerFrame(Run(CLS_DEFAULT, TipSwitch, 1, Touch(1)), 2);
  }

  lemma RunTouch(events: seq<Event>, id: int)
    ensures Run(CLS_DEFAULT, TipSwitch, 1, events + Touch(id))
      == React(CLS_DEFAULT, TipSwitch,
               React(CLS_DEFAULT, TipSwitch, Run(CLS_DEFAULT, TipSwitch, 1, events), Touch(id)[0]), Touch(id)[1])
  {
    hide React;
    RunMore(CLS_DEFAULT, TipSwitch, 1, events, Touch(id)[0]);
    RunMore(CLS_DEFAULT, TipSwitch, 1, events + [Touch(id)[0]], Touch(id)[1]);
    assert events + Touch(id) == events + [Touch(id)[0]] + [Touch(id)[1]];
  }

  /** A frame of one new finger on a panel with one slot. */
  lemma OneFingerFrame(p: Panel, id: int)
    requires |p.slots| == 1 && !p.slots[0].seen && p.numExpected == 0
    requires p.slots[0].touch ==> p.slots[0].contactId != id
    ensures
      var r := React(CLS_DEFAULT, TipSwitch, React(CLS_DEFAULT, TipSwitch, p, Touch(id)[0]), Touch(id)[1]);
      && |r.slots| == 1 && !r.slots[0].seen && r.numExpected == 0
      && (r.slots[0].touch <==> !p.slots[0].touch)
      && r.slots[0].contactId == (if p.slots[0].touch then p.slots[0].contactId else id)
      && TouchIds(r.slots) == if p.slots[0].touch then {} else {id}
  {
    var q := React(CLS_DEFAULT, TipSwitch, p, Touch(id)[0]);
    assert q == p.(cur := p.cur.(contactId := id));
    assert FirstTouching(p.slots, id, 1) == 1 && FirstFree(p.slots, 1) == 1;
    var r := React(CLS_DEFAULT, TipSwitch, q, Touch(id)[1]);
    assert r.slots[0].touch ==> r.slots[0].contactId in TouchIds(r.slots);
  }

  // ---------- what a contact is made of ----------

  /** The value of the last event with this usage, or 0. */
  function Latest(events: seq<Event>, usage: Usage): int
  {
    if events == [] then 0
    else
      var n := |events| - 1;
      if events[n].usage == usage then events[n].value else Latest(events[..n], usage)
  }

  /** The usages that say whether a contact is valid. */
  predicate Validates(q: Quirks, usage: Usage)
  {
    match usage
    case InRange => q.validIsInRange
    case TipSwitch => q.notSeenMeansUp
    case Confidence => q.validIsConfidence
    case _ => false
  }

  predicate LatestValid(q: Quirks, events: seq<Event>)
  {
    events != [] &&
      var n := |events| - 1;
      if Validates(q, events[n].usage) then events[n].value != 0 else LatestValid(q, events[..n])
  }

  /** The last contact count that is not 0. */
  function LatestCount(events: seq<Event>): byte
  {
    if events == [] then 0
    else
      var n := |events| - 1;
      if events[n].usage == ContactCount && events[n].value != 0 then events[n].value % 256 else LatestCount(events[..n])
  }

  /** The contact that the events so far describe. */
  ghost predicate Described(s: Slot, events: seq<Event>)
  {
    && s.contactId == Latest(events, ContactId) && (s.touch <==> Latest(events, TipSwitch) != 0)
    && s.x == Latest(events, X) && s.y == Latest(events, Y) && s.p == Latest(events, TipPressure)
    && s.w == Latest(events, Width) && s.h == Latest(events, Height)
  }

  /** In every run and for every device class, the contact under way has the last value sent of each kind. */
  lemma {:induction false} LatestValues(q: Quirks, lastSlotField: Usage, maxContacts: byte, events: seq<Event>)
    ensures
      var p := Run(q, lastSlotField, maxContacts, events);
      && Described(p.cur, events) && p.curValid == LatestValid(q, events) && p.numExpected == LatestCount(events)
  {
    if events != [] {
      var n := |events| - 1;
      LatestValues(q, lastSlotField, maxContacts, events[..n]);
      var p := Run(q, lastSlotField, maxContacts, events[..n]);
      StoreLatest(q, p, events);
      CompletingKeeps(q, lastSlotField, p, events[n]);
      hide Store, CompleteSlot, EmitEvent, Described, LatestValid, LatestCount;
    }
  }

  /** A device starts with nothing touched and nothing received. */
  lemma StartsEmpty(q: Quirks, lastSlotField: Usage, maxContacts: byte)
    ensures
      var p := Run(q, lastSlotField, maxContacts, []);
      && p.numReceived == 0 && p.numExpected == 0 && !p.curValid && p.frame == [] && |p.slots| == maxContacts
      && (forall s <- p.slots :: s == Slot(0, 0, 0, 0, 0, 0, false, false)) && p.base == p.slots
  {
  }

  lemma StoreLatest(q: Quirks, p: Panel, events: seq<Event>)
    requires events != []
    requires var before := events[..|events| - 1];
      Described(p.cur, before) && p.curValid == LatestValid(q, before) && p.numExpected == LatestCount(before)
    ensures
      var p1 := Store(q, p, events[|events| - 1]);
      Described(p1.cur, events) && p1.curValid == LatestValid(q, events) && p1.numExpected == LatestCount(events)
  {
    StoreDescribes(q, p, events);
    hide Store, Described, Latest;
    StoreValidates(q, p, events);
  }

  lemma LatestStep(events: seq<Event>, usage: Usage)
    requires events != []
    ensures
      var e := events[|events| - 1];
      Latest(events, usage) == if e.usage == usage then e.value else Latest(events[..|events| - 1], usage)
  {
  }

  lemma StoreDescribes(q: Quirks, p: Panel, events: seq<Event>)
    requires events != [] && Described(p.cur, events[..|events| - 1])
    ensures Described(Store(q, p, events[|events| - 1]).cur, events)
  {
    hide Latest;
    LatestStep(events, ContactId);
    LatestStep(events, TipSwitch);
    LatestStep(events, TipPressure);
    LatestStep(events, X);
    LatestStep(events, Y);
    LatestStep(events, Width);
    LatestStep(events, Height);
  }

  lemma StoreValidates(q: Quirks, p: Panel, events: seq<Event>)
    requires events != []
    requires var before := events[..|events| - 1]; p.curValid == LatestValid(q, before) && p.numExpected == LatestCount(before)
    ensures
      var p1 := Store(q, p, events[|events| - 1]);
      p1.curValid == LatestValid(q, events) && p1.numExpected == LatestCount(events)
  {
  }

  lemma CompletingKeeps(q: Quirks, lastSlotField: Usage, p: Panel, e: Event)
    ensures
      var p1, p2 := Store(q, p, e), React(q, lastSlotField, p, e);
      && p2.cur == p1.cur.(seen := p2.cur.seen) && p2.curValid == p1.curValid && p2.numExpected == p1.numExpected
  {
    hide ComputeSlot, Put, LiftAll;
  }

  /** Where a device of each class puts a contact: at its id, at the number of contacts received so far, one
      below its id, at its id unless that is 0 and a contact has been received, or where it is looked up. */
  lemma SlotByClass(q: Quirks, p: Panel)
    ensures
      var id, k := p.cur.contactId, ComputeSlot(q, p);
      if q.slotIsContactId then k == id
      else if q.cypress then k == if id == 0 && p.numReceived > 0 then -1 else id
      else if q.slotIsContactNumber then k == p.numReceived
      else if q.slotIsContactIdMinusOne then k == id - 1
      else
        // the slot that holds the contact, else the first free one
        && -1 <= k < |p.slots|
        && (forall i :: 0 <= i < |p.slots| && p.slots[i].touch && p.slots[i].contactId == id ==>
              0 <= k <= i && p.slots[k].touch && p.slots[k].contactId == id)
        && (id !in TouchIds(p.slots) ==>
              && (k < 0 <==> forall i :: 0 <= i < |p.slots| ==> p.slots[i].touch || p.slots[i].seen)
              && (k >= 0 ==> !p.slots[k].touch && !p.slots[k].seen && forall i :: 0 <= i < k ==> p.slots[i].touch || p.slots[i].seen))
  {
  }

  /** The event that completes a contact puts what the events describe in its slot, if it is valid and the
      device has that slot, and changes no other slot. */
  lemma ContactCompleted(q: Quirks, lastSlotField: Usage, maxContacts: byte, events: seq<Event>)
    requires events != [] && events[|events| - 1].usage == lastSlotField
    ensures
      var p := Run(q, lastSlotField, maxContacts, events[..|events| - 1]);
      var done := AfterSlot(q, lastSlotField, p, events[|events| - 1]);
      var k := ComputeSlot(q, Store(q, p, events[|events| - 1]));
      && Described(done.cur, events) && done.cur.seen && |done.slots| == |p.slots|
      && (forall i :: 0 <= i < |p.slots| && !(i == k && LatestValid(q, events)) ==> done.slots[i] == p.slots[i])
      && (0 <= k < |p.slots| && LatestValid(q, events) ==> done.slots[k] == done.cur)
      && done.frame == (if LatestValid(q, events) then p.frame + [done.cur] else p.frame)
      && done.numReceived == (p.numReceived + 1) % 256
  {
    var n := |events| - 1;
    hide *;
    var p := Run(q, lastSlotField, maxContacts, events[..n]);
    LatestValues(q, lastSlotField, maxContacts, events[..n]);
    StoreLatest(q, p, events);
    StoreKeepsSlots(q, p, events[n]);
    Completes(q, lastSlotField, p, events[n]);
    SeenDescribed(Store(q, p, events[n]).cur, events);
  }

  lemma Completes(q: Quirks, lastSlotField: Usage, p: Panel, e: Event)
    requires e.usage == lastSlotField
    ensures
      var p1, done := Store(q, p, e), AfterSlot(q, lastSlotField, p, e);
      var k := ComputeSlot(q, p1);
      && done.cur == p1.cur.(seen := true) && |done.slots| == |p1.slots|
      && (forall i :: 0 <= i < |p1.slots| && !(i == k && p1.curValid) ==> done.slots[i] == p1.slots[i])
      && (0 <= k < |p1.slots| && p1.curValid ==> done.slots[k] == done.cur)
      && done.frame == (if p1.curValid then p1.frame + [done.cur] else p1.frame)
      && done.numReceived == (p1.numReceived + 1) % 256
  {
    hide Store, ComputeSlot;
  }

  lemma SeenDescribed(s: Slot, events: seq<Event>)
    requires Described(s, events)
    ensures Described(s.(seen := true), events)
  {
    hide Latest;
  }

  lemma StoreKeepsSlots(q: Quirks, p: Panel, e: Event)
    ensures var p1 := Store(q, p, e);
      p1.slots == p.slots && p1.frame == p.frame && p1.numReceived == p.numReceived
  {
  }

  // ---------- the imperative driver ----------

  /** What the input layer is told about one slot. */
  datatype Report = Up | Down(x: int, y: int, wide: bool, p: int, major: int, minor: int)

  function ReportOf(s: Slot): Report
  {
    if !s.touch then Up
    else Down(s.x, s.y, s.w > s.h, s.p, (if s.w > s.h then s.w else s.h) / 2, (if s.w < s.h then s.w else s.h) / 2)
  }

  /** When a frame ends: with the last field of a report, once as many contacts as announced have been
      received.  The count starts again; in the classes that take an unseen contact for a lifted one a slot
      that was not seen is released; usages that the driver does not know do nothing. */
  lemma FrameEnds(q: Quirks, lastSlotField: Usage, p: Panel, e: Event)
    ensures
      var done, after := AfterSlot(q, lastSlotField, p, e), React(q, lastSlotField, p, e);
      if e.usage == Other then after == p
      else if !(e.lastField && done.numReceived >= done.numExpected) then after == done
      else
        && after.numReceived == 0 && after.frame == [] && after.base == after.slots && |after.slots| == |done.slots|
        && after.cur == done.cur && after.curValid == done.curValid && after.numExpected == done.numExpected
        && (forall i :: 0 <= i < |done.slots| ==>
              after.slots[i] == done.slots[i].(seen := false,
                touch := done.slots[i].touch && (!q.notSeenMeansUp || done.slots[i].seen)))
  {
    hide AfterSlot;
  }

  /** What a report says of a contact: its place and pressure, the longer half axis and the shorter one, and
      whether it is wider than high. */
  lemma ReportSays(s: Slot)
    ensures ReportOf(s) == Up <==> !s.touch
    ensures s.touch ==>
      var r := ReportOf(s);
      && r.x == s.x && r.y == s.y && r.p == s.p && (r.wide <==> s.w > s.h)
      && (r.wide ==> r.major == s.w / 2 && r.minor == s.h / 2)
      && (!r.wide ==> r.major == s.h / 2 && r.minor == s.w / 2)
      && r.minor <= r.major
  {
  }

  class MtDevice {
    const quirks: Quirks
    const lastSlotField: Usage
    const slots: array<Slot>
    var curdata: Slot
    var curvalid: bool
    var numReceived: byte
    var numExpected: byte
    ghost var base: seq<Slot>
    ghost var frame: seq<Slot>

    ghost function State(): Panel
      reads this, slots
    {
      Panel(curdata, curvalid, numReceived, numExpected, slots[..], base, frame)
    }

    /** mt_probe, after the report descriptor has been parsed */
    constructor (quirks: Quirks, lastSlotField: Usage, maxContacts: byte)
      ensures State() == Init(maxContacts) && fresh(slots)
      ensures this.quirks == quirks && this.lastSlotField == lastSlotField
    {
      this.quirks, this.lastSlotField := quirks, lastSlotField;
      slots := new Slot[maxContacts](i => ZERO_SLOT);
      curdata, curvalid, numReceived, numExpected := ZERO_SLOT, false, 0, 0;
      new;
      base, frame := slots[..], [];
    }

    /** find_slot_from_contactid */
    method FindSlotFromContactId() returns (slot: int)
      ensures slot == FindSlot(slots[..], curdata.contactId)
    {
      for i := 0 to slots.Length
        invariant FirstTouching(slots[..], curdata.contactId, 0) == FirstTouching(slots[..], curdata.contactId, i)
      {
        if slots[i].contactId == curdata.contactId && slots[i].touch {
          return i;
        }
      }
      for i := 0 to slots.Length
        invariant FirstFree(slots[..], 0) == FirstFree(slots[..], i)
      {
        if !slots[i].seen && !slots[i].touch {
          return i;
        }
      }
      return -1;
    }

    /** mt_compute_slot and cypress_compute_slot */
    method ComputeSlotNumber() returns (slot: int)
      ensures slot == ComputeSlot(quirks, State())
    {
      if quirks.slotIsContactId {
        return curdata.contactId;
      }
      if quirks.cypress {
        if curdata.contactId != 0 || numReceived == 0 {
          return curdata.contactId;
        }
        return -1;
      }
      if quirks.slotIsContactNumber {
        return numReceived;
      }
      if quirks.slotIsContactIdMinusOne {
        return curdata.contactId - 1;
      }
      slot := FindSlotFromContactId();
    }

    /** mt_complete_slot */
    method Complete()
      modifies this, slots
      ensures State() == CompleteSlot(quirks, old(State()))
    {
      hide FindSlot;
      ghost var before := State();
      curdata := curdata.(seen := true);
      if curvalid {
        var slotnum := ComputeSlotNumber();
        assert slotnum == ComputeSlot(quirks, before);
        if 0 <= slotnum < slots.Length {
          slots[slotnum] := curdata;
        }
        frame := frame + [curdata];
      }
      numReceived := (numReceived + 1) % 256;
    }

    /** mt_emit_event */
    method Emit() returns (reports: seq<Report>)
      modifies this, slots
      ensures State() == EmitEvent(quirks, old(State()))
      ensures |reports| == slots.Length
      ensures forall i :: 0 <= i < slots.Length ==> reports[i] == ReportOf(slots[i])
    {
      reports := [];
      ghost var before := slots[..];
      for i := 0 to slots.Length
        invariant |reports| == i
        invariant forall k :: 0 <= k < i ==> slots[k] == Lift(quirks, before[k]) && reports[k] == ReportOf(slots[k])
        invariant forall k :: i <= k < slots.Length ==> slots[k] == before[k]
        invariant curdata == old(curdata) && curvalid == old(curvalid) && numExpected == old(numExpected)
      {
        if quirks.notSeenMeansUp && !slots[i].seen {
          slots[i] := slots[i].(touch := false);
        }
        reports := reports + [ReportOf(slots[i])];
        slots[i] := slots[i].(seen := false);
      }
      numReceived := 0;
      base, frame := slots[..], [];
      assert slots[..] == LiftAll(quirks, before);
    }

    /** The switch of mt_event; false is the fallback to the generic handling. */
    method StoreValue(e: Event) returns (handled: bool)
      modifies this
      ensures State() == Store(quirks, old(State()), e)
      ensures handled <==> e.usage != Other
    {
      handled := true;
      match e.usage
      case InRange =>
        if quirks.validIsInRange { curvalid := e.value != 0; }
      case TipSwitch =>
        if quirks.notSeenMeansUp { curvalid := e.value != 0; }
        curdata := curdata.(touch := e.value != 0);
      case Confidence =>
        if quirks.validIsConfidence { curvalid := e.value != 0; }
      case ContactId => curdata := curdata.(contactId := e.value);
      case TipPressure => curdata := curdata.(p := e.value);
      case X => curdata := curdata.(x := e.value);
      case Y => curdata := curdata.(y := e.value);
      case Width => curdata := curdata.(w := e.value);
      case Height => curdata := curdata.(h := e.value);
      case ContactCount =>
        if e.value != 0 { numExpected := e.value % 256; }
      case Other => handled := false;
    }

    /** mt_event: the new state is that of React, and reports are sent exactly at a frame's end. */
    method OnEvent(e: Event) returns (reports: Option<seq<Report>>)
      modifies this, slots
      ensures State() == React(quirks, lastSlotField, old(State()), e)
      ensures reports.Some? <==> Emits(quirks, lastSlotField, old(State()), e)
      ensures reports.Some? ==> |reports.value| == slots.Length
      ensures reports.Some? ==> forall i :: 0 <= i < slots.Length ==> reports.value[i] == ReportOf(slots[i])
    {
      hide EmitEvent, CompleteSlot, Store;
      reports := None;
      if e.usage == Other {
        return;
      }
      var handled := StoreValue(e);
      if e.usage == lastSlotField {
        Complete();
      }
      if e.lastField && numReceived >= numExpected {
        var r := Emit();
        reports := Some(r);
      }
    }
  }
}
