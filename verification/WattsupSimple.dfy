/**
 The second reader of meter packets: wattsup/wattsup-simple.c counts commas in the text it
 has read and copies what stands between the third and the fourth.
 */
module WattsupSimple {
  import opened CStrings
  import opened WattsupPacket

  datatype Watts =
    | Found(text: string)
    | Unset      // fewer than three commas: watts_string is never written
    | RunsOff    // no comma after the third: the copy leaves the buffer

  /** The n-th comma of the C string at s. */
  function NthComma(b: seq<char>, s: nat, n: nat): (p: Position)
    requires s <= |b|
    ensures p.Somewhere? ==> s <= p.at < |b|
    decreases n
  {
    match Find(b, s, {','})
    case Nowhere => Nowhere
    case Somewhere(at) => if n <= 1 then Somewhere(at) else NthComma(b, at + 1, n - 1)
  }

  /** The next comma in the whole buffer, past NULs too. */
  function NextComma(b: seq<char>, s: nat): (at: nat)
    requires s <= |b|
    ensures s <= at <= |b|
    decreases |b| - s
  {
    if s == |b| || b[s] == ',' then s else NextComma(b, s + 1)
  }

  function WattsOf(b: seq<char>): Watts {
    match NthComma(b, 0, 3)
    case Nowhere => Unset
    case Somewhere(at) =>
      var end := NextComma(b, at + 1);
      if end == |b| then RunsOff else Found(b[at + 1..end])
  }

  /** The n-th comma has n-1 before it, and if there is none the text has fewer than n. */
  lemma {:induction false} NthCommaIs(b: seq<char>, s: nat, n: nat)
    requires s <= |b| && n >= 1
    ensures var e := EndOfText(b, s);
            match NthComma(b, s, n)
            case Nowhere => Count(b, s, e, {','}) < n
            case Somewhere(at) => s <= at < e && b[at] == ',' && Count(b, s, at, {','}) == n - 1
    decreases n
  {
    FoundIsCounted(b, s, {','});
    if Find(b, s, {','}).Somewhere? && n > 1 {
      var at := Find(b, s, {','}).at;
      NthCommaIs(b, at + 1, n - 1);
      if third: nat :| NthComma(b, at + 1, n - 1) == Somewhere(third) {
        CountSplits(b, s, at, third, {','});
      }
    }
  }

  lemma {:induction false} NextCommaExactly(b: seq<char>, s: nat)
    requires s <= |b|
    ensures var at := NextComma(b, s);
            (forall k :: s <= k < at ==> b[k] != ',') && (at < |b| ==> b[at] == ',')
    decreases |b| - s
  {
    if s < |b| && b[s] != ',' {
      NextCommaExactly(b, s + 1);
    }
  }

  /**
   The three outcomes on any buffer: fewer than three commas in the text; none in the buffer
   after the third; or what stands between the third and the next.
   */
  lemma WattsExactly(b: seq<char>) returns (third: nat)
    ensures WattsOf(b).Unset? <==> Count(b, 0, EndOfText(b, 0), {','}) < 3
    ensures !WattsOf(b).Unset? ==> IsThird(b, third)
    ensures WattsOf(b).RunsOff? ==> forall k :: third < k < |b| ==> b[k] != ','
    ensures WattsOf(b).Found? ==> IsBetween(b, third + 1, WattsOf(b).text)
  {
    NthCommaIs(b, 0, 3);
    match NthComma(b, 0, 3)
    case Nowhere => third := 0;
    case Somewhere(at) =>
      third := at;
      NextCommaExactly(b, third + 1);
      CountSplits(b, 0, third, EndOfText(b, 0), {','});
  }

  /** The text from a place up to the next comma of the buffer. */
  ghost predicate IsBetween(b: seq<char>, from: nat, text: string) {
    var end := from + |text|;
    end < |b| && b[end] == ',' && b[from..end] == text && ',' !in text
  }

  /** A comma of the text with two before it. */
  ghost predicate IsThird(b: seq<char>, at: nat) {
    at < EndOfText(b, 0) && b[at] == ',' && Count(b, 0, at, {','}) == 2
  }

  lemma NthCommaStep(b: seq<char>, i: nat, n: nat)
    requires i <= |b|
    ensures i == Scan(b, i, {}) ==> NthComma(b, i, n) == Nowhere
    ensures i < Scan(b, i, {}) ==>
              && Scan(b, i + 1, {}) == Scan(b, i, {})
              && NthComma(b, i, n) == if b[i] != ',' then NthComma(b, i + 1, n)
                                      else if n <= 1 then Somewhere(i) else NthComma(b, i + 1, n - 1)
  {
  }

  /** The scan of the received text. */
  method ExtractWatts(b: seq<char>) returns (watts: Watts)
    ensures watts == WattsOf(b)
  {
    var third := CountCommas(b, 3);
    if third.Nowhere? {
      return Unset;
    }
    watts := CopyToComma(b, third.at + 1);
  }

  /** The loop over the text, up to its n-th comma. */
  method CountCommas(b: seq<char>, n: nat) returns (p: Position)
    requires n >= 1
    ensures p == NthComma(b, 0, n)
  {
    var i, commas := 0, 0;
    var len := Scan(b, 0, {});
    ghost var goal := NthComma(b, 0, n);
    while i < len
      invariant i <= len <= |b| && 0 <= commas < n
      invariant len == Scan(b, i, {})
      invariant goal == NthComma(b, i, n - commas)
    {
      NthCommaStep(b, i, n - commas);
      if b[i] == ',' {
        commas := commas + 1;
        if commas == n {
          return Somewhere(i);
        }
      }
      i := i + 1;
    }
    NthCommaStep(b, i, n - commas);
    p := Nowhere;
  }

  lemma OneMore(b: seq<char>, from: nat, i: nat)
    requires from <= i < |b|
    ensures b[from..i + 1] == b[from..i] + [b[i]]
  {
  }

  /** Copies up to the next comma. */
  method CopyToComma(b: seq<char>, from: nat) returns (watts: Watts)
    requires from <= |b|
    ensures watts == var end := NextComma(b, from); if end == |b| then RunsOff else Found(b[from..end])
  {
    var i := from;
    var wattsString := "";
    while i < |b| && b[i] != ','
      invariant from <= i <= |b|
      invariant wattsString == b[from..i]
      invariant NextComma(b, from) == NextComma(b, i)
    {
      OneMore(b, from, i);
      wattsString := wattsString + [b[i]];
      i := i + 1;
    }
    watts := if i == |b| then RunsOff else Found(wattsString);
  }

  // ---------- agreement with parse_packet ----------

  lemma {:induction false} NextCommaIs(b: seq<char>, s: nat, at: nat)
    requires s <= at < |b| && b[at] == ',' && forall k :: s <= k < at ==> b[k] != ','
    ensures NextComma(b, s) == at
    decreases at - s
  {
    if s < at {
      NextCommaIs(b, s + 1, at);
    }
  }

  lemma {:induction false} NoNextComma(b: seq<char>, s: nat)
    requires s <= |b| && forall k :: s <= k < |b| ==> b[k] != ','
    ensures NextComma(b, s) == |b|
    decreases |b| - s
  {
    if s < |b| {
      NoNextComma(b, s + 1);
    }
  }

  /** The three commas of a packet's head are found where the fields begin. */
  lemma ThirdComma(b: seq<char>, cmd: char, subCmd: char, fields: seq<string>, e: nat)
    requires Plain(cmd) && Plain(subCmd) && fields != []
    requires Holds(b, 0, Body(cmd, subCmd, fields), e)
    ensures var comma := |Head(cmd, subCmd, |fields|)|;
            && NthComma(b, 0, 3) == Somewhere(comma)
            && Holds(b, comma, Join(fields), e)
  {
    BodyParts(b, 0, Head(cmd, subCmd, |fields|), fields, e);
    ThirdCommaOfHead(b, cmd, subCmd, |fields|, |Head(cmd, subCmd, |fields|)|);
  }

  lemma ThirdCommaOfHead(b: seq<char>, cmd: char, subCmd: char, count: nat, e: nat)
    requires Plain(cmd) && Plain(subCmd) && Holds(b, 0, Head(cmd, subCmd, count), e) && b[e] == ','
    ensures NthComma(b, 0, 3) == Somewhere(e)
  {
    FirstTwoCommas(b, cmd, subCmd, count, e);
    CommaAfterCount(b, 0, cmd, subCmd, count, e);
  }

  lemma FirstTwoCommas(b: seq<char>, cmd: char, subCmd: char, count: nat, e: nat)
    requires Plain(cmd) && Plain(subCmd) && Holds(b, 0, Head(cmd, subCmd, count), e)
    ensures 5 < e && NthComma(b, 0, 3) == Find(b, 5, {','})
  {
    HeadHolds(b, 0, cmd, subCmd, count, e);
    ScanIs(b, 0, {','}, 2);
    ScanIs(b, 3, {','}, 4);
    assert NthComma(b, 0, 3) == NthComma(b, 3, 2) == NthComma(b, 5, 1);
  }

  /**
   On a packet as wu_write prints it, whatever follows, the comma-counting scan returns
   field 0 untrimmed when there is a second field...
   */
  lemma ScanFindsFirstField(b: seq<char>, cmd: char, subCmd: char, fields: seq<string>, e: nat)
    requires Plain(cmd) && Plain(subCmd) && AllClean(fields) && |fields| >= 2
    requires Holds(b, 0, Body(cmd, subCmd, fields), e)
    ensures WattsOf(b) == Found(fields[0])
  {
    var comma := |Head(cmd, subCmd, |fields|)|;
    ThirdComma(b, cmd, subCmd, fields, e);
    JoinedField(b, comma + 1, fields, e);
    var end := comma + 1 + |fields[0]|;
    assert forall k :: comma + 1 <= k < end ==> b[k] == b[comma + 1..end][k - comma - 1];
    NextCommaIs(b, comma + 1, end);
  }

  /** ... so on every such packet the two readers agree on the watts, up to white space. */
  lemma ReadersAgree(b: seq<char>, cmd: char, subCmd: char, fields: seq<string>, e: nat, p: Parsed)
    requires Plain(cmd) && Plain(subCmd) && AllClean(fields) && 2 <= |fields| <= NUM_FIELDS
    requires Holds(b, 0, Body(cmd, subCmd, fields), e) && Terminated(b, e) && p.cuts == []
    ensures var r := Parse(b, p);
            && r.status.Success? && |r.field| > 0 && r.field[0] <= |b|
            && WattsOf(b).Found?
            && TrimLeft(WattsOf(b).text) == Text(Blank(b, r.cuts), r.field[0])
  {
    PacketReadsBack(b, 0, cmd, subCmd, fields, e, p);
    ScanFindsFirstField(b, cmd, subCmd, fields, e);
  }

  lemma ScanPastLoneField(b: seq<char>, cmd: char, subCmd: char, field: string, e: nat)
    requires Plain(cmd) && Plain(subCmd) && Clean(field)
    requires Holds(b, 0, Body(cmd, subCmd, [field]), e) && forall k :: e <= k < |b| ==> b[k] != ','
    ensures WattsOf(b) == RunsOff
  {
    var comma := |Head(cmd, subCmd, 1)|;
    ThirdComma(b, cmd, subCmd, [field], e);
    JoinedField(b, comma + 1, [field], e);
    assert Join([field][1..]) == "";
    assert forall k :: comma + 1 <= k < e ==> b[k] == b[comma + 1..e][k - comma - 1];
    NoNextComma(b, comma + 1);
  }

  /**
   In a cleared buffer the scan finds field 0 exactly when a second field follows: with
   one field it runs off the buffer, with none nothing is ever set.
   */
  lemma ScanNeedsSecondField(cmd: char, subCmd: char, fields: seq<string>)
    requires Plain(cmd) && Plain(subCmd) && AllClean(fields) && |fields| <= NUM_FIELDS
    requires Fits(cmd, subCmd, fields)
    ensures WattsOf(Padded(Printed(cmd, subCmd, fields)))
            == if fields == [] then Unset else if |fields| == 1 then RunsOff else Found(fields[0])
  {
    var b := Padded(Printed(cmd, subCmd, fields));
    var body := Body(cmd, subCmd, fields);
    assert fields[..|fields|] == fields;
    assert Holds(b, 0, body, |body|) && b[|body|] == ';';
    if fields == [] {
      assert body == Head(cmd, subCmd, 0);
      FirstTwoCommas(b, cmd, subCmd, 0, |body|);
      NoCommaAfterCount(b, 0, cmd, subCmd, |body|);
    } else if |fields| == 1 {
      assert fields == [fields[0]];
      ScanPastLoneField(b, cmd, subCmd, fields[0], |body|);
    } else {
      ScanFindsFirstField(b, cmd, subCmd, fields, |body|);
    }
  }
}
