/**
 * The data-file reader of Helpers.cs: `buildGraph` reads the file line by line
 * and hands the lines after each `#names`, `#countries` or `#misc` header, up
 * to the next `#stop`, to `readSection`, which appends them to the list for
 * that header. The file is a sequence of lines; a reader is a position in it.
 */
module Sections {
  import opened Options

  /** A StreamReader over the lines of a file. */
  class LineReader {
    const lines: seq<string>
    var pos: nat

    ghost predicate Valid()
      reads this
    {
      pos <= |lines|
    }

    constructor (lines: seq<string>)
      ensures Valid() && this.lines == lines && pos == 0
    {
      this.lines := lines;
      pos := 0;
    }

    /** The next line, or None (C#'s null) once the input is exhausted. */
    method ReadLine() returns (line: Option<string>)
      requires Valid()
      modifies this`pos
      ensures Valid()
      ensures old(pos) < |lines| ==> line == Some(lines[old(pos)]) && pos == old(pos) + 1
      ensures old(pos) == |lines| ==> line == None && pos == old(pos)
    {
      if pos < |lines| {
        line := Some(lines[pos]);
        pos := pos + 1;
      } else {
        line := None;
      }
    }
  }

  /** A List<string>, appended to in place. */
  class StringList {
    var items: seq<string>

    constructor ()
      ensures items == []
    {
      items := [];
    }

    method Add(s: string)
      modifies this
      ensures items == old(items) + [s]
    {
      items := items + [s];
    }
  }

  const Stop := "#stop"

  /** The three lists the data file fills. */
  datatype Data = Data(names: seq<string>, countries: seq<string>, misc: seq<string>)

  const NoData := Data([], [], [])

  /** The lines that open a section; every other line outside a section is ignored. */
  predicate IsHeader(line: string)
  {
    line == "#names" || line == "#countries" || line == "#misc"
  }

  /** Where the first stop word at or after `from` is, if anywhere. */
  function FindStop(lines: seq<string>, from: nat): (stop: Option<nat>)
    requires from <= |lines|
    ensures stop.Some? ==> from <= stop.value < |lines| && lines[stop.value] == Stop && Stop !in lines[from..stop.value]
    ensures stop.None? ==> Stop !in lines[from..]
    decreases |lines| - from
  {
    if from == |lines| then None
    else if lines[from] == Stop then Some(from)
    else
      var rest := FindStop(lines, from + 1);
      assert lines[from..] == [lines[from]] + lines[from + 1..];
      if rest.Some? then
        assert lines[from..rest.value] == [lines[from]] + lines[from + 1..rest.value];
        rest
      else rest
  }

  /** Appends a section's lines to the list its header names. */
  function AddSection(d: Data, header: string, body: seq<string>): (r: Data)
    requires IsHeader(header)
    ensures header == "#names" ==> r == d.(names := d.names + body)
    ensures header == "#countries" ==> r == d.(countries := d.countries + body)
    ensures header == "#misc" ==> r == d.(misc := d.misc + body)
  {
    if header == "#names" then d.(names := d.names + body)
    else if header == "#countries" then d.(countries := d.countries + body)
    else d.(misc := d.misc + body)
  }

  /** What the reading loop of buildGraph collects from line `from` on, added to `d`;
      None when a section never meets its stop word (the source then reads past
      the end of the file without returning). */
  function Parse(lines: seq<string>, from: nat, d: Data): Option<Data>
    requires from <= |lines|
    decreases |lines| - from
  {
    if from == |lines| then Some(d)
    else if IsHeader(lines[from]) then
      match FindStop(lines, from + 1)
      case None => None
      case Some(stop) => Parse(lines, stop + 1, AddSection(d, lines[from], lines[from + 1..stop]))
    else Parse(lines, from + 1, d)
  }

  /** Lines that are not headers are skipped. */
  lemma {:induction false} ParseSkips(lines: seq<string>, from: nat, to: nat, d: Data)
    requires from <= to <= |lines|
    requires forall i :: from <= i < to ==> !IsHeader(lines[i])
    ensures Parse(lines, from, d) == Parse(lines, to, d)
    decreases |lines| - from
  {
    if from < to {
      ParseSkips(lines, from + 1, to, d);
    }
  }

  /** The stop word found from `from` is the first one. */
  lemma {:induction false} FindStopAt(lines: seq<string>, from: nat, stop: nat)
    requires from <= stop < |lines| && lines[stop] == Stop && Stop !in lines[from..stop]
    ensures FindStop(lines, from) == Some(stop)
    decreases stop - from
  {
    if from < stop {
      assert lines[from] in lines[from..stop];
      assert lines[from + 1..stop] == lines[from..stop][1..];
      FindStopAt(lines, from + 1, stop);
    }
  }

  /** A header followed by its lines and a stop word adds exactly those lines. */
  lemma ParseSection(lines: seq<string>, from: nat, d: Data, header: string, body: seq<string>)
    requires from + |body| + 2 <= |lines| && lines[from..from + |body| + 2] == [header] + body + [Stop]
    requires IsHeader(header) && Stop !in body
    ensures Parse(lines, from, d) == Parse(lines, from + |body| + 2, AddSection(d, header, body))
  {
    var part := lines[from..from + |body| + 2];
    assert lines[from] == part[0] == header;
    assert part[1..1 + |body|] == body by {
      assert part == [header] + (body + [Stop]);
      assert part[1..] == body + [Stop];
    }
    var section := lines[from + 1..from + 1 + |body|];
    forall i | 0 <= i < |body|
      ensures section[i] == body[i]
    {
      assert section[i] == lines[from + 1 + i] == part[1 + i];
    }
    assert section == body;
    assert lines[from + 1 + |body|] == part[1 + |body|] == Stop;
    FindStopAt(lines, from + 1, from + 1 + |body|);
  }

  /** The lines of a data file holding the three lists, in the usual order. */
  function Layout(d: Data): seq<string>
  {
    (["#names"] + d.names + [Stop]) + (["#countries"] + d.countries + [Stop]) + (["#misc"] + d.misc + [Stop])
  }

  /** Reading a well-laid-out file gives back the lists written into it, as long
      as no list holds the stop word. */
  lemma ParseLayout(d: Data)
    requires Stop !in d.names && Stop !in d.countries && Stop !in d.misc
    ensures Parse(Layout(d), 0, NoData) == Some(d)
  {
    LayoutParts(d);
    ParseThree(Layout(d), d);
  }

  /** Any lines laid out as the three sections of `d` read back as `d`. */
  lemma ParseThree(lines: seq<string>, d: Data)
    requires Stop !in d.names && Stop !in d.countries && Stop !in d.misc
    requires InLayout(lines, d)
    ensures Parse(lines, 0, NoData) == Some(d)
  {
    var a, b := |d.names| + 2, |d.names| + |d.countries| + 4;
    var d1, d2 := Data(d.names, [], []), Data(d.names, d.countries, []);
    ParseSection(lines, 0, NoData, "#names", d.names);
    assert AddSection(NoData, "#names", d.names) == d1;
    ParseSection(lines, a, d1, "#countries", d.countries);
    assert AddSection(d1, "#countries", d.countries) == d2;
    ParseSection(lines, b, d2, "#misc", d.misc);
    assert AddSection(d2, "#misc", d.misc) == d;
    assert Parse(lines, |lines|, d) == Some(d);
  }

  /** The lines hold the sections of `d`, one after the other. */
  ghost predicate InLayout(lines: seq<string>, d: Data)
  {
    var a, b := |d.names| + 2, |d.names| + |d.countries| + 4;
    && |lines| == b + |d.misc| + 2
    && lines[..a] == ["#names"] + d.names + [Stop]
    && lines[a..b] == ["#countries"] + d.countries + [Stop]
    && lines[b..b + |d.misc| + 2] == ["#misc"] + d.misc + [Stop]
  }

  /** Where each section of a layout sits. */
  lemma LayoutParts(d: Data)
    ensures InLayout(Layout(d), d)
  {
    var p1, p2, p3 := ["#names"] + d.names + [Stop], ["#countries"] + d.countries + [Stop], ["#misc"] + d.misc + [Stop];
    var lines := Layout(d);
    assert lines == (p1 + p2) + p3;
    assert lines[..|p1| + |p2|] == p1 + p2;
    assert (p1 + p2)[..|p1|] == p1;
    assert (p1 + p2)[|p1|..] == p2;
  }

  /** readSection: appends the lines before the next stop word and consumes the
      stop word. Without one the source keeps appending nulls until the call
      stack overflows; the model reports `complete == false` instead. */
  method ReadSection(stream: LineReader, list: StringList) returns (complete: bool)
    requires stream.Valid()
    modifies stream`pos, list
    ensures stream.Valid()
    ensures complete <==> FindStop(stream.lines, old(stream.pos)).Some?
    ensures complete ==>
      var stop := FindStop(stream.lines, old(stream.pos)).value;
      list.items == old(list.items) + stream.lines[old(stream.pos)..stop] && stream.pos == stop + 1
    decreases |stream.lines| - stream.pos
  {
    var line := stream.ReadLine();
    if line.None? {
      complete := false;
    } else if line.value != Stop {
      list.Add(line.value);
      complete := ReadSection(stream, list);
      if complete {
        var stop := FindStop(stream.lines, old(stream.pos)).value;
        assert stream.lines[old(stream.pos)..stop] == [line.value] + stream.lines[old(stream.pos) + 1..stop];
      }
    } else {
      complete := true;
    }
  }

  /** The reading loop of buildGraph: each header line hands the stream to
      readSection with the list it names; any other line is skipped. */
  method ReadSections(stream: LineReader, names: StringList, countries: StringList, misc: StringList)
    returns (complete: bool)
    requires stream.Valid() && names != countries && names != misc && countries != misc
    modifies stream`pos, names, countries, misc
    ensures var parsed := Parse(stream.lines, old(stream.pos), Data(old(names.items), old(countries.items), old(misc.items)));
      && (complete <==> parsed.Some?)
      && (complete ==> parsed.value == Data(names.items, countries.items, misc.items))
  {
    ghost var want := Parse(stream.lines, stream.pos, Data(names.items, countries.items, misc.items));
    complete := true;
    var line := stream.ReadLine();
    while line.Some?
      invariant stream.Valid()
      invariant line.Some? ==> 0 < stream.pos && line.value == stream.lines[stream.pos - 1]
      invariant line.Some? ==> want == Parse(stream.lines, stream.pos - 1, Data(names.items, countries.items, misc.items))
      invariant line.None? ==> want == Some(Data(names.items, countries.items, misc.items))
      decreases |stream.lines| - stream.pos + (if line.Some? then 1 else 0)
    {
      var ok := true;
      if line.value == "#names" {
        ok := ReadSection(stream, names);
      } else if line.value == "#countries" {
        ok := ReadSection(stream, countries);
      } else if line.value == "#misc" {
        ok := ReadSection(stream, misc);
      }
      if !ok {
        complete := false;
        return;
      }
      line := stream.ReadLine();
    }
  }
}
