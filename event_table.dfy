/**
  The daemon's event table and the two read-only searches over it that both
  revisions of input.c share: `input_string`, which maps an event read from a
  device to the command configured for it, and `ev_needed`, which decides from
  a device's capability bitmaps whether the device can produce an event that
  has a command.
 */
module EventTable {
  import opened Options
  import opened Evdev

  /** The fixed part of a table entry (type, code, value and name). */
  datatype EventSpec = EventSpec(etype: EvType, code: EvCode, value: u32, name: string)

  /** A table entry: its fixed part and the configured command, `None` until a rule sets it. */
  datatype Entry = Entry(spec: EventSpec, cmd: Option<string>)

  /** The value the kernel reports for an automatic key repeat. */
  const EV_VREP: s32 := 2

  /** The fixed parts of a table, in table order. */
  function Specs(t: seq<Entry>): (s: seq<EventSpec>)
    ensures |s| == |t| && forall i :: 0 <= i < |t| ==> s[i] == t[i].spec
  {
    seq(|t|, i requires 0 <= i < |t| => t[i].spec)
  }

  /** The index of the first element at or after `from` that satisfies `p`. */
  function FirstIndex<T>(s: seq<T>, p: T -> bool, from: nat): (r: Option<nat>)
    requires from <= |s|
    ensures r.Some? ==> from <= r.value < |s| && p(s[r.value])
    ensures r.Some? ==> forall j :: from <= j < r.value ==> !p(s[j])
    ensures r.None? ==> forall j :: from <= j < |s| ==> !p(s[j])
    decreases |s| - from
  {
    if from == |s| then None
    else if p(s[from]) then Some(from)
    else FirstIndex(s, p, from + 1)
  }

  /**
    Whether an entry answers an event: same type and code, and then for a key
    either a repeat or the entry's value, for any other type the entry's value.
    The entry's value is unsigned, so the event's signed value is converted.
   */
  predicate Matches(e: EventSpec, ev: InputEvent): (b: bool)
    ensures ev.value >= 0 ==>
              (b <==> e.etype == ev.etype && e.code == ev.code
                      && (e.value == ev.value || (ev.etype == EV_KEY && ev.value == EV_VREP)))
    ensures ev.value < 0 ==>
              (b <==> e.etype == ev.etype && e.code == ev.code && e.value == ev.value + 0x1_0000_0000)
  {
    && e.etype == ev.etype
    && e.code == ev.code
    && if ev.etype == EV_KEY then ev.value == EV_VREP || e.value == AsUnsigned(ev.value)
       else e.value == AsUnsigned(ev.value)
  }

  /** The command of the first entry that answers `ev`; `None` stands for NULL. */
  function Lookup(t: seq<Entry>, ev: InputEvent): (r: Option<string>)
    ensures (forall i :: 0 <= i < |t| ==> !Matches(t[i].spec, ev)) ==> r == None
    ensures r.Some? ==> exists i :: 0 <= i < |t| && Matches(t[i].spec, ev) && t[i].cmd == r
  {
    match FirstIndex(t, (e: Entry) => Matches(e.spec, ev), 0)
    case None => None
    case Some(i) => t[i].cmd
  }

  /** The event that an entry names: its type, code and value. */
  function Trigger(s: EventSpec): InputEvent
    requires s.value < 0x8000_0000
  {
    InputEvent(s.etype, s.code, s.value)
  }

  /** A key-repeat event for the control an entry names. */
  function Repeat(s: EventSpec): InputEvent {
    InputEvent(s.etype, s.code, EV_VREP)
  }

  /**
    No event is claimed by two entries: entries that share a type and a code
    are not keys (so the repeat rule cannot join them) and differ in value.
   */
  predicate Unambiguous(s: seq<EventSpec>) {
    forall i, j :: 0 <= i < j < |s| && s[i].etype == s[j].etype && s[i].code == s[j].code ==>
      s[i].etype != EV_KEY && s[i].value != s[j].value
  }

  /** All values of a table are non-negative as 32-bit signed integers too. */
  predicate SignedValues(s: seq<EventSpec>) {
    forall i :: 0 <= i < |s| ==> s[i].value < 0x8000_0000
  }

  /**
    In an unambiguous table every entry's own event yields exactly that entry's
    command, and for a key so does a repeat of it.
   */
  lemma LookupRegistered(t: seq<Entry>, i: nat)
    requires Unambiguous(Specs(t)) && SignedValues(Specs(t))
    requires i < |t|
    ensures Lookup(t, Trigger(t[i].spec)) == t[i].cmd
    ensures t[i].spec.etype == EV_KEY ==> Lookup(t, Repeat(t[i].spec)) == t[i].cmd
  {
    var s := Specs(t);
    var ev := Trigger(t[i].spec);
    var p := (e: Entry) => Matches(e.spec, ev);
    assert p(t[i]);
    forall j | 0 <= j < i
      ensures !p(t[j])
    {
      assert s[j] == t[j].spec && s[i] == t[i].spec;
    }
    var r := FirstIndex(t, p, 0);
    assert r == Some(i);
    if t[i].spec.etype == EV_KEY {
      var rep := Repeat(t[i].spec);
      var q := (e: Entry) => Matches(e.spec, rep);
      assert q(t[i]);
      forall j | 0 <= j < i
        ensures !q(t[j])
      {
        assert s[j] == t[j].spec && s[i] == t[i].spec;
      }
      var r' := FirstIndex(t, q, 0);
      assert r' == Some(i);
    }
  }

  /**
    A command is only ever returned for an entry's own event or, for a key,
    a repeat of it: a release (value 0) of a key whose entry triggers on a
    press (value 1) yields nothing.
   */
  lemma LookupOnlyRegistered(t: seq<Entry>, ev: InputEvent)
    requires SignedValues(Specs(t))
    requires Lookup(t, ev).Some?
    ensures exists i :: 0 <= i < |t| && t[i].cmd == Lookup(t, ev)
              && t[i].spec.etype == ev.etype && t[i].spec.code == ev.code
              && (t[i].spec.value == ev.value || (ev.etype == EV_KEY && ev.value == EV_VREP))
  {
    var i := FirstIndex(t, (e: Entry) => Matches(e.spec, ev), 0).value;
    assert Specs(t)[i] == t[i].spec;
    assert t[i].spec.value == ev.value || (ev.etype == EV_KEY && ev.value == EV_VREP);
  }

  /** The bitmaps that EVIOCGBIT returns for one device. */
  datatype DeviceCaps = DeviceCaps(
    evbit: bv64,                 // the event types the device supports
    codeBits: seq<seq<bv8>>      // per event type, the codes it supports
  ) {
    /** One code bitmap per event type, each KEY_MAX / 8 + 1 bytes long. */
    predicate WellFormed() {
      && |codeBits| == EV_CNT
      && forall t :: 0 <= t < |codeBits| ==> |codeBits[t]| == KEY_MAX / 8 + 1
    }
  }

  /** Bit `t` of the device's type bitmap (the C test masks with `1 << t`; shifting the bitmap is the same test). */
  predicate TypeBitSet(evbit: bv64, t: EvType) {
    (evbit >> t) & 1 == 1
  }

  /** Bit `c` of a code bitmap: byte c / 8, least significant bit first. */
  predicate CodeBitSet(bits: seq<bv8>, c: EvCode)
    requires |bits| == KEY_MAX / 8 + 1
  {
    bits[c / 8] & (1 << (c % 8)) != 0
  }

  /** An entry makes a device worth watching: it has a command and the device reports its type and code. */
  predicate Relevant(e: Entry, caps: DeviceCaps): (b: bool)
    requires caps.WellFormed()
    ensures b <==> e.cmd.Some? && Advertises(caps, InputEvent(e.spec.etype, e.spec.code, 0))
  {
    && TypeBitSet(caps.evbit, e.spec.etype)
    && e.cmd.Some?
    && CodeBitSet(caps.codeBits[e.spec.etype], e.spec.code)
  }

  /** Some entry makes the device worth watching. */
  predicate Needed(t: seq<Entry>, caps: DeviceCaps): (b: bool)
    requires caps.WellFormed()
    ensures (forall i :: 0 <= i < |t| ==> t[i].cmd == None) ==> !b
    ensures b <==> exists i :: 0 <= i < |t| && t[i].cmd.Some?
                     && Advertises(caps, InputEvent(t[i].spec.etype, t[i].spec.code, 0))
  {
    exists i :: 0 <= i < |t| && Relevant(t[i], caps)
  }

  /** The device declares that it can report `ev`. */
  predicate Advertises(caps: DeviceCaps, ev: InputEvent)
    requires caps.WellFormed()
  {
    && ev.etype < EV_CNT
    && ev.code <= KEY_MAX
    && TypeBitSet(caps.evbit, ev.etype)
    && CodeBitSet(caps.codeBits[ev.etype], ev.code)
  }

  /**
    A device is kept whenever it declares an event that would run a command,
    so dropping the devices `ev_needed` rejects loses no command.
   */
  lemma DispatchImpliesNeeded(t: seq<Entry>, caps: DeviceCaps, ev: InputEvent)
    requires caps.WellFormed()
    requires Advertises(caps, ev)
    requires Lookup(t, ev).Some?
    ensures Needed(t, caps)
  {
    var i := FirstIndex(t, (e: Entry) => Matches(e.spec, ev), 0).value;
    assert Relevant(t[i], caps);
  }

  /** The event table: a fixed-length array whose entries only ever change in their `cmd` slot. */
  class Table {
    const entries: array<Entry>

    constructor (catalogue: seq<Entry>)
      ensures fresh(entries)
      ensures entries[..] == catalogue
    {
      entries := new Entry[|catalogue|](i requires 0 <= i < |catalogue| => catalogue[i]);
    }

    /** `input_string`: the command for an event read from a device, or `None`. */
    method InputString(ev: InputEvent) returns (cmd: Option<string>)
      ensures cmd == Lookup(entries[..], ev)
    {
      for i := 0 to entries.Length
        invariant forall j :: 0 <= j < i ==> !Matches(entries[j].spec, ev)
      {
        var e := entries[i];
        if e.spec.etype != ev.etype || e.spec.code != ev.code {
          continue;
        }
        if ev.etype == EV_KEY {
          if ev.value != EV_VREP && e.spec.value != AsUnsigned(ev.value) {
            continue;
          }
        } else if e.spec.value != AsUnsigned(ev.value) {
          continue;
        }
        assert FirstIndex(entries[..], (e: Entry) => Matches(e.spec, ev), 0) == Some(i);
        return e.cmd;
      }
      return None;
    }

    /** `ev_needed`: whether a device with the given capability bitmaps is worth watching. */
    method EvNeeded(caps: DeviceCaps) returns (needed: bool)
      requires caps.WellFormed()
      ensures needed <==> Needed(entries[..], caps)
    {
      for i := 0 to entries.Length
        invariant forall j :: 0 <= j < i ==> !Relevant(entries[j], caps)
      {
        var e := entries[i];
        if !TypeBitSet(caps.evbit, e.spec.etype) {
          continue;
        }
        if e.cmd == None {
          continue;
        }
        if CodeBitSet(caps.codeBits[e.spec.etype], e.spec.code) {
          assert Relevant(entries[..][i], caps);
          return true;
        }
      }
      return false;
    }
  }
}
