/**
  src/input.c: a nine-entry event table whose commands are set by a
  configuration of `event=<name>` lines, each followed by an `action=<command>`
  line. A name is selected by prefix, a second rule for an entry ends the
  process, a rule without its action line only draws a warning, and every
  line that does not start with "event=" is ignored.
 */
module SrcInput {
  import opened Options
  import opened Evdev
  import opened EventTable
  import opened Lines

  /** The table as compiled in, every command still unset. */
  function Catalogue(): (c: seq<Entry>)
    ensures |c| == 9 && forall i :: 0 <= i < |c| ==> c[i].cmd == None
  {
    [ Entry(EventSpec(EV_KEY, KEY_POWER, 1, "button/power"), None),
      Entry(EventSpec(EV_KEY, KEY_BRIGHTNESSDOWN, 1, "button/brightnessdown"), None),
      Entry(EventSpec(EV_KEY, KEY_BRIGHTNESSUP, 1, "button/brightnessup"), None),
      Entry(EventSpec(EV_KEY, KEY_VOLUMEDOWN, 1, "button/volumedown"), None),
      Entry(EventSpec(EV_KEY, KEY_VOLUMEUP, 1, "button/volumeup"), None),
      Entry(EventSpec(EV_KEY, KEY_MUTE, 1, "button/mute"), None),
      Entry(EventSpec(EV_SW, SW_LID, 0, "lid-open"), None),
      Entry(EventSpec(EV_SW, SW_LID, 1, "button/lid LID close"), None),
      Entry(EventSpec(EV_KEY, KEY_CONFIG, 1, "button/config"), None) ]
  }

  const EVENT_PREFIX := "event="
  const ACTION_PREFIX := "action="

  /** Why the process ends while reading the configuration. */
  datatype ConfigError =
    | RuleExists(name: string)   // errx "rule for %s already exists"
    | ReadFailed                 // err "fgets": no line after an event= line

  datatype Exit = Done | Fatal(error: ConfigError)

  /** How `add_event` ends: 0, -1, or the end of the process. */
  datatype AddOutcome = Added | Rejected | Abort(error: ConfigError)

  /** The outcome of `add_event`, the table after it and the stream position after it. */
  datatype AddStep = AddStep(outcome: AddOutcome, table: seq<Entry>, pos: nat)

  /** The index of the first entry whose name is a prefix of `s`. */
  function FindPrefix(t: seq<Entry>, s: string): (r: Option<nat>)
    ensures r.Some? ==> r.value < |t| && StartsWith(s, t[r.value].spec.name)
    ensures r.Some? ==> forall j :: 0 <= j < r.value ==> !StartsWith(s, t[j].spec.name)
    ensures r.None? <==> forall j :: 0 <= j < |t| ==> !StartsWith(s, t[j].spec.name)
  {
    FirstIndex(t, (e: Entry) => StartsWith(s, e.spec.name), 0)
  }

  /**
    `add_event` on values, for the text `s` after "event=" and a stream at
    `pos`: the first entry whose name prefixes `s` is selected; it must not
    have a command yet; the next line is read and, if it starts with
    "action=", the rest of it becomes the entry's command.
   */
  function RegisterEvent(t: seq<Entry>, s: string, lines: seq<string>, pos: nat): (r: AddStep)
    requires pos <= |lines|
    ensures pos <= r.pos <= |lines| && r.pos <= pos + 1
    ensures Specs(r.table) == Specs(t)
    ensures r.outcome != Added ==> r.table == t
    ensures (forall i :: 0 <= i < |t| ==> !StartsWith(s, t[i].spec.name)) ==> r == AddStep(Rejected, t, pos)
    ensures r.outcome.Abort? ==> r.pos == pos
    ensures r.outcome.Added? ==>
              exists i :: 0 <= i < |t| && StartsWith(s, t[i].spec.name)
                && (forall j :: 0 <= j < i ==> !StartsWith(s, t[j].spec.name))
                && t[i].cmd == None && r.pos == pos + 1 && StartsWith(lines[pos], ACTION_PREFIX)
                && r.table == t[i := Entry(t[i].spec, Some(lines[pos][|ACTION_PREFIX|..]))]
    ensures FindPrefix(t, s).Some? ==>
              var i := FindPrefix(t, s).value;
              && (t[i].cmd.Some? ==> r == AddStep(Abort(RuleExists(t[i].spec.name)), t, pos))
              && (t[i].cmd.None? && pos == |lines| ==> r == AddStep(Abort(ReadFailed), t, pos))
              && (t[i].cmd.None? && pos < |lines| && !StartsWith(lines[pos], ACTION_PREFIX) ==>
                    r == AddStep(Rejected, t, pos + 1))
              && (t[i].cmd.None? && pos < |lines| && StartsWith(lines[pos], ACTION_PREFIX) ==>
                    r.outcome == Added)
  {
    match FindPrefix(t, s)
    case None => AddStep(Rejected, t, pos)
    case Some(i) =>
      if t[i].cmd.Some? then AddStep(Abort(RuleExists(t[i].spec.name)), t, pos)
      else if pos == |lines| then AddStep(Abort(ReadFailed), t, pos)
      else if !StartsWith(lines[pos], ACTION_PREFIX) then AddStep(Rejected, t, pos + 1)
      else
        var t' := t[i := Entry(t[i].spec, Some(lines[pos][|ACTION_PREFIX|..]))];
        assert Specs(t') == Specs(t);
        AddStep(Added, t', pos + 1)
  }

  /** `add_event`: registers the rule that begins with `s`, reading its action line from `stream`. */
  method AddEvent(tab: Table, s: string, stream: Stream) returns (outcome: AddOutcome)
    requires stream.Valid()
    modifies tab.entries, stream
    ensures stream.Valid()
    ensures AddStep(outcome, tab.entries[..], stream.pos) == RegisterEvent(old(tab.entries[..]), s, stream.lines, old(stream.pos))
  {
    for i := 0 to tab.entries.Length
      invariant forall j :: 0 <= j < i ==> !StartsWith(s, tab.entries[j].spec.name)
      invariant tab.entries[..] == old(tab.entries[..]) && stream.pos == old(stream.pos)
    {
      var e := tab.entries[i];
      if StartsWith(s, e.spec.name) {
        assert FindPrefix(tab.entries[..], s) == Some(i);
        if e.cmd != None {
          return Abort(RuleExists(e.spec.name));
        }
        var buf := stream.ReadLine();
        if buf == None {
          return Abort(ReadFailed);
        }
        if !StartsWith(buf.value, ACTION_PREFIX) {
          return Rejected;
        }
        ghost var before := tab.entries[..];
        tab.entries[i] := Entry(e.spec, Some(buf.value[|ACTION_PREFIX|..]));
        assert tab.entries[..] == before[i := Entry(e.spec, Some(buf.value[|ACTION_PREFIX|..]))];
        return Added;
      }
    }
    return Rejected;
  }

  /** The outcome of reading a configuration: how it ended, the table, the lines read and the lines warned about. */
  datatype Run = Run(exit: Exit, table: seq<Entry>, pos: nat, warnings: seq<string>)

  /**
    `parse_rules` on values: reads lines[pos..] into table `t`; `warnings`
    holds the lines already warned about. Commands already set never change.
   */
  function Parse(t: seq<Entry>, lines: seq<string>, pos: nat, warnings: seq<string>): (r: Run)
    requires pos <= |lines|
    ensures pos <= r.pos <= |lines|
    ensures r.exit.Done? ==> r.pos == |lines|
    ensures Specs(r.table) == Specs(t)
    ensures forall i :: 0 <= i < |t| && t[i].cmd.Some? ==> r.table[i] == t[i]
    ensures warnings <= r.warnings
    decreases |lines| - pos
  {
    if pos == |lines| then Run(Done, t, pos, warnings)
    else
      var line := lines[pos];
      if line == "\n" || !StartsWith(line, EVENT_PREFIX) then Parse(t, lines, pos + 1, warnings)
      else
        var step := RegisterEvent(t, line[|EVENT_PREFIX|..], lines, pos + 1);
        match step.outcome
        case Abort(e) => Run(Fatal(e), step.table, step.pos, warnings)
        case Added => Parse(step.table, lines, step.pos, warnings)
        case Rejected => Parse(step.table, lines, step.pos, warnings + [line])
  }

  /**
    `parse_rules`: reads the stream to its end, or stops where a rule is
    fatal; returns the lines it warned about ("couldnt parse rule").
   */
  method ParseRules(tab: Table, stream: Stream) returns (exit: Exit, warnings: seq<string>)
    requires stream.Valid()
    modifies tab.entries, stream
    ensures stream.Valid()
    ensures Run(exit, tab.entries[..], stream.pos, warnings) == Parse(old(tab.entries[..]), stream.lines, old(stream.pos), [])
  {
    warnings := [];
    while true
      invariant stream.Valid()
      invariant Parse(old(tab.entries[..]), stream.lines, old(stream.pos), []) == Parse(tab.entries[..], stream.lines, stream.pos, warnings)
      decreases |stream.lines| - stream.pos
    {
      var buf := stream.ReadLine();
      if buf == None {
        return Done, warnings;
      }
      var line := buf.value;
      if line == "\n" {
        continue;
      }
      if StartsWith(line, EVENT_PREFIX) {
        var outcome := AddEvent(tab, line[|EVENT_PREFIX|..], stream);
        match outcome
        case Abort(e) =>
          return Fatal(e), warnings;
        case Rejected =>
          warnings := warnings + [line];
        case Added =>
      }
    }
  }

  /** No event is claimed by two catalogue entries. */
  lemma CatalogueUnambiguous()
    ensures Unambiguous(Specs(Catalogue())) && SignedValues(Specs(Catalogue()))
  {
  }

  /** No catalogue entry's name starts with another entry's name, so every name selects its own entry. */
  lemma CataloguePrefixFree(i: nat, j: nat)
    requires i < |Catalogue()| && j < |Catalogue()| && i != j
    ensures !StartsWith(Catalogue()[i].spec.name, Catalogue()[j].spec.name)
  {
    var a, b := Catalogue()[i].spec.name, Catalogue()[j].spec.name;
    // the index of a character in which the two names differ
    var k :=
      if i == 6 || j == 6 then 0                     // "lid-open" against "button/..."
      else if i in {1, 2} && j in {1, 2} then 17    // "button/brightness" + "down" / "up"
      else if i in {3, 4} && j in {3, 4} then 13    // "button/volume" + "down" / "up"
      else 7;                                        // the letter after "button/"
    assert k < |a| && k < |b| && a[k] != b[k];
  }

  /** Of two prefixes of the same text, one is a prefix of the other. */
  lemma PrefixesNest(s: string, name: string, other: string)
    requires StartsWith(s, name) && StartsWith(s, other)
    ensures StartsWith(name, other) || StartsWith(other, name)
  {
    if |other| <= |name| {
      assert name[..|other|] == s[..|other|];
    } else {
      assert other[..|name|] == s[..|name|];
    }
  }

  /** Text that starts with a catalogue entry's name selects that entry, whatever follows the name. */
  lemma PrefixSelects(t: seq<Entry>, i: nat, suffix: string)
    requires Specs(t) == Specs(Catalogue())
    requires i < |t|
    ensures FindPrefix(t, t[i].spec.name + suffix) == Some(i)
  {
    var name := t[i].spec.name;
    var s := name + suffix;
    assert forall j :: 0 <= j < |t| ==> t[j].spec == Specs(t)[j] == Specs(Catalogue())[j];
    assert s[..|name|] == name;
    forall j | 0 <= j < i
      ensures !StartsWith(s, t[j].spec.name)
    {
      CataloguePrefixFree(i, j);
      CataloguePrefixFree(j, i);
      if StartsWith(s, t[j].spec.name) {
        PrefixesNest(s, name, t[j].spec.name);
        assert false;
      }
    }
  }

  /**
    Text that starts with no catalogue name is rejected without reading the
    next line: parsing warns about the event line and goes on with the line
    right after it.
   */
  lemma UnknownEventWarns(t: seq<Entry>, lines: seq<string>, pos: nat, warnings: seq<string>)
    requires pos < |lines| && StartsWith(lines[pos], EVENT_PREFIX)
    requires FindPrefix(t, lines[pos][|EVENT_PREFIX|..]).None?
    ensures Parse(t, lines, pos, warnings) == Parse(t, lines, pos + 1, warnings + [lines[pos]])
  {
    assert lines[pos] != "\n";
  }

  /** A line that does not start with "event=" (a lone newline among them) is passed over without a warning. */
  lemma IgnoredLine(t: seq<Entry>, lines: seq<string>, pos: nat, warnings: seq<string>)
    requires pos < |lines| && !StartsWith(lines[pos], EVENT_PREFIX)
    ensures Parse(t, lines, pos, warnings) == Parse(t, lines, pos + 1, warnings)
  {
  }

  /**
    A second rule for an entry that already has a command ends the process,
    before the action line is read and with the table unchanged.
   */
  lemma DuplicateAborts(t: seq<Entry>, i: nat, suffix: string, lines: seq<string>, pos: nat, warnings: seq<string>)
    requires Specs(t) == Specs(Catalogue())
    requires i < |t| && t[i].cmd.Some?
    requires pos < |lines| && lines[pos] == EVENT_PREFIX + t[i].spec.name + suffix
    ensures Parse(t, lines, pos, warnings) == Run(Fatal(RuleExists(t[i].spec.name)), t, pos + 1, warnings)
  {
    var line := lines[pos];
    assert line[..|EVENT_PREFIX|] == EVENT_PREFIX;
    assert line[|EVENT_PREFIX|..] == t[i].spec.name + suffix;
    PrefixSelects(t, i, suffix);
  }

  /**
    An event line followed by a line that does not start with "action=" is
    warned about; the following line is consumed, the table is unchanged,
    and parsing goes on after it.
   */
  lemma MissingActionWarns(t: seq<Entry>, lines: seq<string>, pos: nat, warnings: seq<string>)
    requires pos + 1 < |lines| && StartsWith(lines[pos], EVENT_PREFIX)
    requires FindPrefix(t, lines[pos][|EVENT_PREFIX|..]).Some?
    requires t[FindPrefix(t, lines[pos][|EVENT_PREFIX|..]).value].cmd == None
    requires !StartsWith(lines[pos + 1], ACTION_PREFIX)
    ensures Parse(t, lines, pos, warnings) == Parse(t, lines, pos + 2, warnings + [lines[pos]])
  {
    assert lines[pos] != "\n";
  }

  /**
    A rule for an entry without a command registers the action line's text
    after "action=" (newline included); parsing goes on after the action line.
   */
  lemma RuleRegisters(t: seq<Entry>, i: nat, suffix: string, cmd: string, lines: seq<string>, pos: nat, warnings: seq<string>)
    requires Specs(t) == Specs(Catalogue())
    requires i < |t| && t[i].cmd == None
    requires pos + 1 < |lines|
    requires lines[pos] == EVENT_PREFIX + t[i].spec.name + suffix
    requires lines[pos + 1] == ACTION_PREFIX + cmd
    ensures Parse(t, lines, pos, warnings) == Parse(t[i := Entry(t[i].spec, Some(cmd))], lines, pos + 2, warnings)
  {
    var line := lines[pos];
    assert line[..|EVENT_PREFIX|] == EVENT_PREFIX;
    assert line[|EVENT_PREFIX|..] == t[i].spec.name + suffix;
    assert line != "\n";
    var act := lines[pos + 1];
    assert act[..|ACTION_PREFIX|] == ACTION_PREFIX;
    assert act[|ACTION_PREFIX|..] == cmd;
    PrefixSelects(t, i, suffix);
    var t' := t[i := Entry(t[i].spec, Some(cmd))];
    assert RegisterEvent(t, line[|EVENT_PREFIX|..], lines, pos + 1) == AddStep(Added, t', pos + 2);
  }

  /** After a rule for a catalogue entry, that entry's event, and for a key a repeat of it, yield the rule's command. */
  lemma RegisteredRuleFires(t: seq<Entry>, i: nat, cmd: string)
    requires Specs(t) == Specs(Catalogue())
    requires i < |t|
    ensures var t' := t[i := Entry(t[i].spec, Some(cmd))];
      && Lookup(t', Trigger(t[i].spec)) == Some(cmd)
      && (t[i].spec.etype == EV_KEY ==> Lookup(t', Repeat(t[i].spec)) == Some(cmd))
  {
    var t' := t[i := Entry(t[i].spec, Some(cmd))];
    CatalogueUnambiguous();
    assert Specs(t') == Specs(t);
    LookupRegistered(t', i);
  }

  /** An event line that is the last line of the stream ends the process when its action line is read. */
  lemma EventAtEndFails(t: seq<Entry>, i: nat, suffix: string, lines: seq<string>, warnings: seq<string>)
    requires Specs(t) == Specs(Catalogue())
    requires i < |t| && t[i].cmd == None
    requires |lines| > 0 && lines[|lines| - 1] == EVENT_PREFIX + t[i].spec.name + suffix
    ensures Parse(t, lines, |lines| - 1, warnings) == Run(Fatal(ReadFailed), t, |lines|, warnings)
  {
    var line := lines[|lines| - 1];
    assert line[..|EVENT_PREFIX|] == EVENT_PREFIX;
    assert line[|EVENT_PREFIX|..] == t[i].spec.name + suffix;
    PrefixSelects(t, i, suffix);
  }

  lemma ExampleSpelling()
    ensures "event=button/power\n" == EVENT_PREFIX + "button/power" + "\n"
    ensures "action=/bin/foo\n" == ACTION_PREFIX + "/bin/foo\n"
  {
  }

  /**
    A second rule for the power button ends the process; the first rule's
    command stays in place.
   */
  lemma DuplicateExample()
    ensures var r := Parse(Catalogue(), ["event=button/power\n", "action=/bin/foo\n", "event=button/power\n", "action=/bin/bar\n"], 0, []);
      && r.exit == Fatal(RuleExists("button/power"))
      && r.pos == 3
      && Lookup(r.table, InputEvent(EV_KEY, KEY_POWER, 1)) == Some("/bin/foo\n")
  {
    var lines := ["event=button/power\n", "action=/bin/foo\n", "event=button/power\n", "action=/bin/bar\n"];
    var t0 := Catalogue();
    ExampleSpelling();
    RuleRegisters(t0, 0, "\n", "/bin/foo\n", lines, 0, []);
    var t1 := t0[0 := Entry(t0[0].spec, Some("/bin/foo\n"))];
    assert Specs(t1) == Specs(t0);
    DuplicateAborts(t1, 0, "\n", lines, 2, []);
    RegisteredRuleFires(t0, 0, "/bin/foo\n");
  }

  /** "button/unknown" starts with no catalogue name. */
  lemma UnknownName(t: seq<Entry>)
    requires Specs(t) == Specs(Catalogue())
    ensures FindPrefix(t, "button/unknown\n").None?
  {
    var s := "button/unknown\n";
    forall j | 0 <= j < |t|
      ensures !StartsWith(s, t[j].spec.name)
    {
      var name := t[j].spec.name;
      assert name == Specs(Catalogue())[j].name;
      var k := if j == 6 then 0 else 7;
      assert k < |name| && name[k] != s[k];
    }
  }

  /**
    A rule whose next line is not an action line, and a rule for an unknown
    name, are warned about and skipped; a later rule for the same entry then
    registers, and the run completes.
   */
  lemma WarningExample(t: seq<Entry>, lines: seq<string>)
    requires Specs(t) == Specs(Catalogue()) && t[5].cmd == None
    requires lines == WarningLines()
    ensures var r := Parse(t, lines, 0, []);
      && r.exit == Done
      && r.warnings == [lines[0], lines[2]]
      && Lookup(r.table, InputEvent(EV_KEY, KEY_MUTE, 1)) == Some("/bin/mute\n")
  {
    WarningFirstRule(t, lines);
    WarningUnknownRule(t, lines);
    assert t[5].spec.name == "button/mute" by {
      assert t[5].spec == Specs(t)[5] == Specs(Catalogue())[5];
    }
    RuleRegisters(t, 5, "\n", "/bin/mute\n", lines, 3, [lines[0], lines[2]]);
    RegisteredRuleFires(t, 5, "/bin/mute\n");
  }

  /** The lines of the warning example. */
  function WarningLines(): seq<string> {
    [ EVENT_PREFIX + "button/mute" + "\n", "run=/bin/mute\n", EVENT_PREFIX + "button/unknown\n",
      EVENT_PREFIX + "button/mute" + "\n", ACTION_PREFIX + "/bin/mute\n" ]
  }

  lemma WarningFirstRule(t: seq<Entry>, lines: seq<string>)
    requires Specs(t) == Specs(Catalogue()) && t[5].cmd == None
    requires lines == WarningLines()
    ensures Parse(t, lines, 0, []) == Parse(t, lines, 2, [lines[0]])
  {
    assert t[5].spec.name == "button/mute" by {
      assert t[5].spec == Specs(t)[5] == Specs(Catalogue())[5];
    }
    PrefixSelects(t, 5, "\n");
    assert lines[0][..|EVENT_PREFIX|] == EVENT_PREFIX;
    assert FindPrefix(t, lines[0][|EVENT_PREFIX|..]) == Some(5);
    assert !StartsWith(lines[1], ACTION_PREFIX) by {
      assert lines[1][0] != ACTION_PREFIX[0];
    }
    MissingActionWarns(t, lines, 0, []);
    assert [] + [lines[0]] == [lines[0]];
  }

  lemma WarningUnknownRule(t: seq<Entry>, lines: seq<string>)
    requires Specs(t) == Specs(Catalogue())
    requires lines == WarningLines()
    ensures Parse(t, lines, 2, [lines[0]]) == Parse(t, lines, 3, [lines[0], lines[2]])
  {
    assert lines[2][..|EVENT_PREFIX|] == EVENT_PREFIX;
    assert lines[2][|EVENT_PREFIX|..] == "button/unknown\n";
    UnknownName(t);
    UnknownEventWarns(t, lines, 2, [lines[0]]);
    assert [lines[0]] + [lines[2]] == [lines[0], lines[2]];
  }
}
