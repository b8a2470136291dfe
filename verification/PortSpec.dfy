/** matchPort: a port number, a comma-separated list, a range, or a single port as text. */
module PortSpec {
  import opened Wrappers
  import opened Strings

  // What the rule accepts, branch by branch as the source tests them.
  predicate Accepts(rulePort: int, spec: string, port: int) {
    if rulePort == 0 && spec == "" then true
    else if rulePort != 0 then port == rulePort
    else if ',' in spec then
      exists i | 0 <= i < |Split(spec, ',')| :: Atoi(TrimSpace(Split(spec, ',')[i])) == Some(port)
    else if '-' in spec then
      var parts := Split(spec, '-');
      |parts| == 2
      && var low, high := Atoi(TrimSpace(parts[0])), Atoi(TrimSpace(parts[1]));
         low.Some? && high.Some? && low.value <= port <= high.value
    else Atoi(TrimSpace(spec)) == Some(port)
  }

  method MatchPort(rulePort: int, spec: string, port: int) returns (matched: bool)
    ensures matched == Accepts(rulePort, spec, port)
  {
    if rulePort == 0 && spec == "" {
      return true;
    }
    if rulePort != 0 {
      return port == rulePort;
    }
    if ',' in spec {
      var parts := Split(spec, ',');
      for i := 0 to |parts|
        invariant forall j | 0 <= j < i :: Atoi(TrimSpace(parts[j])) != Some(port)
      {
        var p := Atoi(TrimSpace(parts[i]));
        if p.Some? && p.value == port {
          return true;
        }
      }
      return false;
    }
    if '-' in spec {
      var parts := Split(spec, '-');
      if |parts| == 2 {
        var low := Atoi(TrimSpace(parts[0]));
        var high := Atoi(TrimSpace(parts[1]));
        if low.Some? && high.Some? {
          return low.value <= port <= high.value;
        }
      }
      return false;
    }
    var p := Atoi(TrimSpace(spec));
    return p.Some? && p.value == port;
  }

  // ----- Printing a specification ---------------------------------------------------------------

  // A port as text, with blanks before and after.
  datatype Entry = Entry(left: string, port: nat, right: string)

  predicate WellPadded(e: Entry) {
    Blank(e.left) && Blank(e.right) && e.port <= MAX_INT64
  }

  function Print(e: Entry): string {
    e.left + PrintNat(e.port) + e.right
  }

  function PrintAll(entries: seq<Entry>): seq<string> {
    seq(|entries|, i requires 0 <= i < |entries| => Print(entries[i]))
  }

  lemma PrintIsPlain(e: Entry)
    requires WellPadded(e)
    ensures ',' !in Print(e) && '-' !in Print(e) && Print(e) != ""
  {
    PrintNatDigits(e.port);
    var s := PrintNat(e.port);
    forall i | 0 <= i < |Print(e)|
      ensures IsSpace(Print(e)[i]) || IsDigit(Print(e)[i])
    {
      if i < |e.left| {
        assert Print(e)[i] == e.left[i];
      } else if i < |e.left| + |s| {
        assert Print(e)[i] == s[i - |e.left|];
      } else {
        assert Print(e)[i] == e.right[i - |e.left| - |s|];
      }
    }
  }

  // A printed list accepts exactly the listed ports, however it is padded, one port or many.
  lemma ListRoundTrip(entries: seq<Entry>, port: int)
    requires entries != [] && forall i | 0 <= i < |entries| :: WellPadded(entries[i])
    ensures Accepts(0, Join(PrintAll(entries), ','), port) <==> exists i | 0 <= i < |entries| :: entries[i].port == port
  {
    var parts := PrintAll(entries);
    var spec := Join(parts, ',');
    forall i | 0 <= i < |entries|
      ensures ',' !in parts[i] && '-' !in parts[i] && parts[i] != ""
      ensures Atoi(TrimSpace(parts[i])) == Some(entries[i].port)
    {
      PrintIsPlain(entries[i]);
      AtoiUndoesPrint(entries[i].left, entries[i].port, entries[i].right);
    }
    if |entries| == 1 {
      assert spec == parts[0];
    } else {
      SplitUndoesJoin(parts, ',');
      assert spec[|parts[0]|] == ',';
      assert forall i | 0 <= i < |entries| :: Split(spec, ',')[i] == parts[i];
    }
  }

  // A printed range accepts exactly the ports between its ends, both included.
  lemma RangeRoundTrip(low: Entry, high: Entry, port: int)
    requires WellPadded(low) && WellPadded(high)
    ensures Accepts(0, Print(low) + "-" + Print(high), port) <==> low.port <= port <= high.port
  {
    var spec := Print(low) + "-" + Print(high);
    PrintIsPlain(low);
    PrintIsPlain(high);
    AtoiUndoesPrint(low.left, low.port, low.right);
    AtoiUndoesPrint(high.left, high.port, high.right);
    SplitFirst(Print(low), '-', Print(high));
    SplitPlain(Print(high), '-');
    assert spec[|Print(low)|] == '-';
  }

  // ----- The other specifications -----------------------------------------------------------------

  // A port number decides alone, whatever the text says; with neither, every port is accepted.
  lemma NumberDecides(rulePort: int, spec: string, port: int)
    ensures rulePort != 0 ==> (Accepts(rulePort, spec, port) <==> port == rulePort)
    ensures Accepts(0, "", port)
  {
  }

  // A list of any texts accepts the ports that some of them parse to; the others are passed over.
  lemma ListAccepts(parts: seq<string>, port: int)
    requires |parts| >= 2 && forall i | 0 <= i < |parts| :: ',' !in parts[i]
    ensures Accepts(0, Join(parts, ','), port)
            <==> exists i | 0 <= i < |parts| :: Atoi(TrimSpace(parts[i])) == Some(port)
  {
    SplitUndoesJoin(parts, ',');
    assert Join(parts, ',')[|parts[0]|] == ',';
  }

  // A range of any two texts accepts what lies between them if both parse, and nothing otherwise.
  lemma RangeAccepts(low: string, high: string, port: int)
    requires ',' !in low && '-' !in low && ',' !in high && '-' !in high
    ensures Accepts(0, low + "-" + high, port)
            <==> match (Atoi(TrimSpace(low)), Atoi(TrimSpace(high)))
                 case (Some(first), Some(last)) => first <= port <= last
                 case _ => false
  {
    var spec := low + "-" + high;
    SplitFirst(low, '-', high);
    SplitPlain(high, '-');
    assert spec[|low|] == '-';
    assert Split(spec, '-') == [low, high];
  }

  // With more than one dash nothing is accepted.
  lemma ManyDashesAcceptNothing(parts: seq<string>, port: int)
    requires |parts| >= 3 && forall i | 0 <= i < |parts| :: ',' !in parts[i] && '-' !in parts[i]
    ensures !Accepts(0, Join(parts, '-'), port)
  {
    SplitUndoesJoin(parts, '-');
    NoCommaJoined(parts);
    assert Join(parts, '-')[|parts[0]|] == '-';
  }

  lemma {:induction false} NoCommaJoined(parts: seq<string>)
    requires forall i | 0 <= i < |parts| :: ',' !in parts[i]
    ensures ',' !in Join(parts, '-')
  {
    if |parts| <= 1 {
    } else {
      NoCommaJoined(parts[1..]);
    }
  }

  // Any other text is one port, or none.
  lemma SingleAccepts(spec: string, port: int)
    requires spec != "" && ',' !in spec && '-' !in spec
    ensures Accepts(0, spec, port) <==> Atoi(TrimSpace(spec)) == Some(port)
  {
  }
}
