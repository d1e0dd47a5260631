/**
  input.c at the repository root: an eight-entry event table whose commands
  are set by a configuration of `event <name> do <command>` lines, one rule
  per line, the name matched exactly. An unknown name or a malformed line
  ends the process; registering a name twice replaces its command.
 */
module RootInput {
  import opened Options
  import opened Evdev
  import opened EventTable
  import opened Lines

  /** The table as compiled in, every command still unset. */
  function Catalogue(): (c: seq<Entry>)
    ensures |c| == 8 && forall i :: 0 <= i < |c| ==> c[i].cmd == None
  {
    [ Entry(EventSpec(EV_KEY, KEY_POWER, 1, "power"), None),
      Entry(EventSpec(EV_KEY, KEY_BRIGHTNESSDOWN, 1, "brightnessdown"), None),
      Entry(EventSpec(EV_KEY, KEY_BRIGHTNESSUP, 1, "brightnessup"), None),
      Entry(EventSpec(EV_KEY, KEY_VOLUMEDOWN, 1, "volumedown"), None),
      Entry(EventSpec(EV_KEY, KEY_VOLUMEUP, 1, "volumeup"), None),
      Entry(EventSpec(EV_KEY, KEY_MUTE, 1, "mute"), None),
      Entry(EventSpec(EV_SW, SW_LID, 0, "lid-open"), None),
      Entry(EventSpec(EV_SW, SW_LID, 1, "lid-close"), None) ]
  }

  const EVENT_PREFIX := "event "
  const SEPARATOR := " do "

  /** Why the process ends while reading the configuration. */
  datatype ConfigError =
    | BadRule(line: string)       // errx "failed to parse rule"
    | UnknownEvent(event: string) // err "add_rule"

  datatype Exit = Done | Fatal(error: ConfigError)

  /** The index of the entry whose name is exactly `event` (strcmp). */
  function FindName(t: seq<Entry>, event: string): (r: Option<nat>)
    ensures r.Some? ==> r.value < |t| && t[r.value].spec.name == event
    ensures r.Some? ==> forall j :: 0 <= j < r.value ==> t[j].spec.name != event
    ensures r.None? <==> forall j :: 0 <= j < |t| ==> t[j].spec.name != event
  {
    FirstIndex(t, (e: Entry) => e.spec.name == event, 0)
  }

  /**
    `add_rule` on the table's value: the new table when an entry is named
    `event` (add_rule returns 0), `None` when none is (it returns -1).
   */
  function RegisterRule(t: seq<Entry>, event: string, action: string): (r: Option<seq<Entry>>)
    ensures r.None? <==> forall i :: 0 <= i < |t| ==> t[i].spec.name != event
    ensures r.Some? ==> Specs(r.value) == Specs(t)
    ensures r.Some? ==> exists i :: 0 <= i < |t| && t[i].spec.name == event
                          && (forall j :: 0 <= j < i ==> t[j].spec.name != event)
                          && r.value == t[i := Entry(t[i].spec, Some(action))]
  {
    match FindName(t, event)
    case None => None
    case Some(i) =>
      var t' := t[i := Entry(t[i].spec, Some(action))];
      assert Specs(t') == Specs(t);
      Some(t')
  }

  /** `add_rule`: sets the command of the first entry named `event`; returns 0, or -1 if there is none. */
  method AddRule(tab: Table, event: string, action: string) returns (status: int)
    modifies tab.entries
    ensures status == 0 || status == -1
    ensures status == 0 <==> RegisterRule(old(tab.entries[..]), event, action).Some?
    ensures tab.entries[..] == RegisterRule(old(tab.entries[..]), event, action).GetOr(old(tab.entries[..]))
  {
    for i := 0 to tab.entries.Length
      invariant forall j :: 0 <= j < i ==> tab.entries[j].spec.name != event
      invariant tab.entries[..] == old(tab.entries[..])
    {
      if tab.entries[i].spec.name != event {
        continue;
      }
      ghost var before := tab.entries[..];
      assert FindName(before, event) == Some(i);
      tab.entries[i] := Entry(tab.entries[i].spec, Some(action));
      assert tab.entries[..] == before[i := Entry(before[i].spec, Some(action))];
      return 0;
    }
    return -1;
  }

  /** What one configuration line says. */
  datatype Line = Blank | Rule(event: string, action: string) | Malformed

  /** The line that registers `action` for `event`. */
  function FormatRule(event: string, action: string): string {
    EVENT_PREFIX + event + SEPARATOR + action
  }

  /**
    One line of the configuration: "\n" is skipped; otherwise it must start
    with "event " and contain " do " after it. The name runs up to the first
    " do " and the command is the rest of the line, newline included.
   */
  function ParseLine(line: string): (r: Line)
    ensures r.Blank? <==> line == "\n"
    ensures r.Malformed? <==> line != "\n" && (!StartsWith(line, EVENT_PREFIX) || !HasSeparator(line))
    ensures r.Rule? ==> line == FormatRule(r.event, r.action)
    ensures r.Rule? ==> forall j :: 0 <= j < |r.event| ==> !OccursAt(r.event + SEPARATOR + r.action, SEPARATOR, j)
  {
    if line == "\n" then Blank
    else if !StartsWith(line, EVENT_PREFIX) then Malformed
    else
      var rest := line[|EVENT_PREFIX|..];
      assert forall j :: |EVENT_PREFIX| <= j <= |line| ==> OccursAt(line, SEPARATOR, j) == OccursAt(rest, SEPARATOR, j - |EVENT_PREFIX|);
      match IndexOf(rest, SEPARATOR, 0)
      case None => Malformed
      case Some(k) =>
        assert OccursAt(line, SEPARATOR, k + |EVENT_PREFIX|);
        assert rest[..k] + SEPARATOR + rest[k + |SEPARATOR|..] == rest;
        assert forall j :: 0 <= j < k ==> OccursAt(rest[..k] + SEPARATOR + rest[k + |SEPARATOR|..], SEPARATOR, j) == OccursAt(rest, SEPARATOR, j);
        Rule(rest[..k], rest[k + |SEPARATOR|..])
  }

  /** " do " occurs in the line after its "event " prefix. */
  predicate HasSeparator(line: string) {
    exists j :: |EVENT_PREFIX| <= j <= |line| && OccursAt(line, SEPARATOR, j)
  }

  /** A rule line whose name holds no space reads back as that rule. */
  lemma ParseFormatted(event: string, action: string)
    requires ' ' !in event
    ensures ParseLine(FormatRule(event, action)) == Rule(event, action)
  {
    var line := FormatRule(event, action);
    var rest := line[|EVENT_PREFIX|..];
    assert line[0] == 'e';
    assert StartsWith(line, EVENT_PREFIX);
    assert rest == event + SEPARATOR + action;
    assert OccursAt(rest, SEPARATOR, |event|);
    forall j | 0 <= j < |event|
      ensures !OccursAt(rest, SEPARATOR, j)
    {
      assert rest[j] == event[j];
    }
    var k := IndexOf(rest, SEPARATOR, 0);
    assert k == Some(|event|);
    assert rest[..|event|] == event;
    assert rest[|event| + |SEPARATOR|..] == action;
  }

  /** The outcome of reading a configuration: how it ended, the table, and the lines read. */
  datatype Run = Run(exit: Exit, table: seq<Entry>, pos: nat)

  /**
    `parse_rules` on values: applies lines[pos..] to table `t` one line at a
    time and stops at the first fatal line. Only commands change.
   */
  function Parse(t: seq<Entry>, lines: seq<string>, pos: nat): (r: Run)
    requires pos <= |lines|
    ensures pos <= r.pos <= |lines|
    ensures r.exit.Done? ==> r.pos == |lines|
    ensures Specs(r.table) == Specs(t)
    decreases |lines| - pos
  {
    if pos == |lines| then Run(Done, t, pos)
    else match ParseLine(lines[pos])
      case Blank => Parse(t, lines, pos + 1)
      case Malformed => Run(Fatal(BadRule(lines[pos])), t, pos + 1)
      case Rule(event, action) =>
        match RegisterRule(t, event, action)
        case None => Run(Fatal(UnknownEvent(event)), t, pos + 1)
        case Some(t') => Parse(t', lines, pos + 1)
  }

  /**
    What one line does to a run: "\n" is skipped, a malformed line is fatal,
    a rule naming no entry is fatal, and any other rule is registered before
    the next line is read. A fatal line leaves the table as it was.
   */
  lemma ParseOneLine(t: seq<Entry>, lines: seq<string>, pos: nat)
    requires pos < |lines|
    ensures ParseLine(lines[pos]).Blank? ==> Parse(t, lines, pos) == Parse(t, lines, pos + 1)
    ensures ParseLine(lines[pos]).Malformed? ==> Parse(t, lines, pos) == Run(Fatal(BadRule(lines[pos])), t, pos + 1)
    ensures ParseLine(lines[pos]).Rule? ==>
              var rule := ParseLine(lines[pos]);
              match RegisterRule(t, rule.event, rule.action)
              case None => Parse(t, lines, pos) == Run(Fatal(UnknownEvent(rule.event)), t, pos + 1)
              case Some(t') => Parse(t, lines, pos) == Parse(t', lines, pos + 1)
  {
  }

  /** A line that does not stop the run: blank, or a rule naming an entry of `t`. */
  predicate Accepted(t: seq<Entry>, line: string) {
    match ParseLine(line)
    case Blank => true
    case Malformed => false
    case Rule(event, _) => FindName(t, event).Some?
  }

  /** Whether a line is accepted depends only on the table's names, which registering never changes. */
  lemma AcceptedByNames(t: seq<Entry>, u: seq<Entry>, line: string)
    requires Specs(t) == Specs(u)
    ensures Accepted(t, line) == Accepted(u, line)
  {
    assert forall j :: 0 <= j < |t| ==> t[j].spec == Specs(t)[j] == Specs(u)[j] == u[j].spec;
  }

  /** A run ends normally exactly when every line from `pos` on is accepted. */
  lemma {:induction false} ParseSucceeds(t: seq<Entry>, lines: seq<string>, pos: nat)
    requires pos <= |lines|
    ensures Parse(t, lines, pos).exit.Done? <==> forall k :: pos <= k < |lines| ==> Accepted(t, lines[k])
    decreases |lines| - pos
  {
    if pos < |lines| {
      match ParseLine(lines[pos])
      case Blank =>
        ParseSucceeds(t, lines, pos + 1);
      case Malformed =>
      case Rule(event, action) =>
        match RegisterRule(t, event, action)
        case None =>
        case Some(t') =>
          ParseSucceeds(t', lines, pos + 1);
          forall k | pos < k < |lines|
            ensures Accepted(t', lines[k]) == Accepted(t, lines[k])
          {
            AcceptedByNames(t', t, lines[k]);
          }
    }
  }

  /**
    A run that ends in an error ends on the line that caused it: the last line
    read is malformed and is the one reported, or it is a rule whose name no
    entry has, and that name is the one reported.
   */
  predicate EndsOnCause(lines: seq<string>, pos: nat, r: Run)
    requires r.pos <= |lines|
  {
    r.exit.Fatal? ==>
      && pos < r.pos
      && match r.exit.error
         case BadRule(line) => line == lines[r.pos - 1] && ParseLine(line).Malformed?
         case UnknownEvent(event) =>
           && ParseLine(lines[r.pos - 1]).Rule?
           && ParseLine(lines[r.pos - 1]).event == event
           && forall i :: 0 <= i < |r.table| ==> r.table[i].spec.name != event
  }

  /** Every run that ends in an error ends on its cause. */
  lemma {:induction false} FatalLine(t: seq<Entry>, lines: seq<string>, pos: nat)
    requires pos <= |lines|
    ensures EndsOnCause(lines, pos, Parse(t, lines, pos))
    decreases |lines| - pos
  {
    if pos < |lines| {
      ParseOneLine(t, lines, pos);
      match ParseLine(lines[pos])
      case Blank =>
        FatalLine(t, lines, pos + 1);
      case Malformed =>
      case Rule(event, action) =>
        match RegisterRule(t, event, action)
        case None =>
        case Some(t') =>
          FatalLine(t', lines, pos + 1);
    }
  }

  /** `parse_rules`: reads the stream to its end, registering one rule per line, or stops at a fatal line. */
  method ParseRules(tab: Table, stream: Stream) returns (exit: Exit)
    requires stream.Valid()
    modifies tab.entries, stream
    ensures stream.Valid()
    ensures Run(exit, tab.entries[..], stream.pos) == Parse(old(tab.entries[..]), stream.lines, old(stream.pos))
  {
    while true
      invariant stream.Valid()
      invariant Parse(old(tab.entries[..]), stream.lines, old(stream.pos)) == Parse(tab.entries[..], stream.lines, stream.pos)
      decreases |stream.lines| - stream.pos
    {
      ghost var before := tab.entries[..];
      var read := stream.ReadLine();
      if read.None? {
        return Done;
      }
      var line := read.value;
      ParseOneLine(before, stream.lines, stream.pos - 1);
      if line == "\n" {
        continue;
      }
      if !StartsWith(line, EVENT_PREFIX) {
        return Fatal(BadRule(line));
      }
      var roll := line[|EVENT_PREFIX|..];
      var at := IndexOf(roll, SEPARATOR, 0);
      if at.None? {
        return Fatal(BadRule(line));
      }
      var event := roll[..at.value];
      var action := roll[at.value + |SEPARATOR|..];
      var status := AddRule(tab, event, action);
      if status != 0 {
        return Fatal(UnknownEvent(event));
      }
    }
  }

  /** The catalogue's names are distinct, and no event is claimed by two of its entries. */
  lemma CatalogueWellFormed()
    ensures Unambiguous(Specs(Catalogue())) && SignedValues(Specs(Catalogue()))
    ensures forall i, j :: 0 <= i < j < |Catalogue()| ==> Catalogue()[i].spec.name != Catalogue()[j].spec.name
  {
  }

  /**
    There is no duplicate check: registering a name again replaces its command
    as if the first registration had not happened.
   */
  lemma RegisterReplaces(t: seq<Entry>, event: string, first: string, second: string)
    requires RegisterRule(t, event, first).Some?
    ensures RegisterRule(RegisterRule(t, event, first).value, event, second) == RegisterRule(t, event, second)
  {
    var t1 := RegisterRule(t, event, first).value;
    var i := FindName(t, event).value;
    assert t1 == t[i := Entry(t[i].spec, Some(first))];
    assert t1[i].spec == t[i].spec;
    assert FindName(t1, event) == Some(i) by {
      forall j | 0 <= j < i
        ensures t1[j].spec.name != event
      {
        assert t1[j] == t[j];
      }
    }
    assert t1[i := Entry(t1[i].spec, Some(second))] == t[i := Entry(t[i].spec, Some(second))];
  }

  /**
    Once a catalogue name is registered, that entry's own event, and for a key
    its repeat, yield the registered command.
   */
  lemma RegisteredRuleFires(t: seq<Entry>, i: nat, action: string)
    requires Specs(t) == Specs(Catalogue())
    requires i < |t|
    ensures RegisterRule(t, t[i].spec.name, action).Some?
    ensures var t' := RegisterRule(t, t[i].spec.name, action).value;
      && Lookup(t', Trigger(t[i].spec)) == Some(action)
      && (t[i].spec.etype == EV_KEY ==> Lookup(t', Repeat(t[i].spec)) == Some(action))
  {
    CatalogueWellFormed();
    var name := t[i].spec.name;
    assert forall j :: 0 <= j < |t| ==> t[j].spec == Specs(t)[j] == Specs(Catalogue())[j];
    assert FindName(t, name) == Some(i);
    var t' := RegisterRule(t, name, action).value;
    assert t' == t[i := Entry(t[i].spec, Some(action))];
    LookupRegistered(t', i);
  }

  /** The example rule lines read as the rules they spell. */
  lemma ExampleLines()
    ensures ParseLine("event power do /bin/foo\n") == Rule("power", "/bin/foo\n")
    ensures ParseLine("event lid-close do /bin/bar\n") == Rule("lid-close", "/bin/bar\n")
  {
    ExampleSpelling();
    ParseFormatted("power", "/bin/foo\n");
    ParseFormatted("lid-close", "/bin/bar\n");
  }

  lemma ExampleSpelling()
    ensures FormatRule("power", "/bin/foo\n") == "event power do /bin/foo\n"
    ensures FormatRule("lid-close", "/bin/bar\n") == "event lid-close do /bin/bar\n"
  {
  }

  /**
    Reading "event power do /bin/foo\n" and "event lid-close do /bin/bar\n"
    into the compiled-in table makes a power press and a lid close run those
    commands (newline included), while a lid opening still runs nothing.
   */
  lemma TwoRulesExample()
    ensures var r := Parse(Catalogue(), ["event power do /bin/foo\n", "event lid-close do /bin/bar\n"], 0);
      && r.exit == Done
      && Lookup(r.table, InputEvent(EV_KEY, KEY_POWER, 1)) == Some("/bin/foo\n")
      && Lookup(r.table, InputEvent(EV_KEY, KEY_POWER, 2)) == Some("/bin/foo\n")
      && Lookup(r.table, InputEvent(EV_SW, SW_LID, 1)) == Some("/bin/bar\n")
      && Lookup(r.table, InputEvent(EV_SW, SW_LID, 0)) == None
  {
    var lines := ["event power do /bin/foo\n", "event lid-close do /bin/bar\n"];
    var t0 := Catalogue();
    CatalogueWellFormed();
    ExampleLines();
    RegisteredRuleFires(t0, 0, "/bin/foo\n");
    var t1 := RegisterRule(t0, "power", "/bin/foo\n").value;
    RegisteredRuleFires(t1, 7, "/bin/bar\n");
    var t2 := RegisterRule(t1, "lid-close", "/bin/bar\n").value;
    assert Parse(t0, lines, 0) == Run(Done, t2, 2) by {
      assert Parse(t1, lines, 1) == Parse(t2, lines, 2);
    }
    assert t2[0] == t1[0] && t2[6] == t0[6];
    LookupRegistered(t2, 0);
    LookupRegistered(t2, 6);
    assert Trigger(t2[0].spec) == InputEvent(EV_KEY, KEY_POWER, 1);
    assert Repeat(t2[0].spec) == InputEvent(EV_KEY, KEY_POWER, 2);
    assert Trigger(t2[6].spec) == InputEvent(EV_SW, SW_LID, 0);
    assert Trigger(t2[7].spec) == InputEvent(EV_SW, SW_LID, 1);
  }

  /** A line without " do " is fatal and registers nothing. */
  lemma MissingSeparatorExample(t: seq<Entry>)
    ensures Parse(t, ["event power /bin/foo\n"], 0) == Run(Fatal(BadRule("event power /bin/foo\n")), t, 1)
  {
    var line := "event power /bin/foo\n";
    var rest := line[|EVENT_PREFIX|..];
    assert rest == "power /bin/foo\n";
    forall j | 0 <= j <= |rest|
      ensures !OccursAt(rest, SEPARATOR, j)
    {
      if j + |SEPARATOR| <= |rest| {
        assert rest[j..j + |SEPARATOR|][1] == rest[j + 1];
        assert rest[j..j + |SEPARATOR|][0] == rest[j];
      }
    }
    assert ParseLine(line) == Malformed;
  }

  /** A rule line written for a name no entry has is fatal wherever it appears, and leaves the table as it was. */
  lemma UnknownEventIsFatal(t: seq<Entry>, lines: seq<string>, pos: nat, event: string, action: string)
    requires ' ' !in event
    requires forall i :: 0 <= i < |t| ==> t[i].spec.name != event
    requires pos < |lines| && lines[pos] == FormatRule(event, action)
    ensures Parse(t, lines, pos) == Run(Fatal(UnknownEvent(event)), t, pos + 1)
  {
    ParseFormatted(event, action);
  }
}
