/**
 Packets of the Watts Up? meter (wattsup/wattsup.c): wu_write prints one into a 256-byte
 buffer, parse_packet takes one apart in place, writing NULs over the separators and
 keeping pointers into the same buffer.  A pointer is an offset here.
 */
module WattsupPacket {
  import opened Words
  import opened CStrings

  const BUFFER_SIZE := 256
  const NUM_FIELDS := 18
  const SEPARATORS := {',', ';'}

  // ---------- printing ----------

  /** "#cmd,sub_cmd,count" */
  function Head(cmd: char, subCmd: char, count: nat): string {
    ['#', cmd, ',', subCmd, ','] + Digits(count)
  }

  /** Each field after a comma. */
  function Join(fields: seq<string>): string {
    if fields == [] then "" else "," + fields[0] + Join(fields[1..])
  }

  /** How many fields are printed before one is too long for the buffer. */
  function Fitting(len: nat, fields: seq<string>): (n: nat)
    ensures n <= |fields|
    decreases |fields|
  {
    if fields == [] || len + |fields[0]| + 4 >= BUFFER_SIZE then 0
    else 1 + Fitting(len + 1 + |fields[0]|, fields[1..])
  }

  // ---------- parsing, on the buffer as it was ----------

  datatype Status =
    | Success
    | Fault       // EFAULT
    | Overrun     // more fields than the packet has pointers for: C writes past them

  /** What a parse leaves: the packet's members, and where it wrote NULs. */
  datatype Parsed = Parsed(
    status: Status, cmd: char, subCmd: char, count: Word, field: seq<nat>, cuts: seq<nat>)

  /** The fields from s on, the i-th and later; s is Nowhere after a last, unterminated one. */
  function ParseFields(b: seq<char>, s: Position, p: Parsed): (r: Parsed)
    requires s.Somewhere? ==> s.at <= |b|
    ensures r.cmd == p.cmd && r.subCmd == p.subCmd && r.count == p.count
    decreases NUM_FIELDS - |p.field|
  {
    var i := |p.field|;
    if i >= p.count then p.(status := Success)
    else if s.Nowhere? || i >= NUM_FIELDS then p.(status := Overrun)
    else
      var next := Find(b, s.at, SEPARATORS);
      match next
      case Somewhere(at) =>
        ParseFields(b, Somewhere(at + 1), p.(field := p.field + [SkipSpaces(b, s.at)], cuts := p.cuts + [at]))
      case Nowhere =>
        if i < p.count - 1 then p.(status := Fault)
        else ParseFields(b, Nowhere, p.(field := p.field + [SkipSpaces(b, s.at)]))
  }

  /** The count, which is terminated in place, and then the fields. */
  function ParseCount(b: seq<char>, s: nat, p: Parsed): (r: Parsed)
    requires s <= |b|
  {
    match Find(b, s, {','})
    case Nowhere => p.(status := Fault)
    case Somewhere(comma) =>
      var count := Truncate(Atoi(b[s..comma]));
      ParseFields(b, Somewhere(comma + 1), p.(count := count, field := [], cuts := p.cuts + [comma]))
  }

  /** The command and sub-command characters: the packet's members, and where the count begins. */
  function ParseHead(b: seq<char>, p: Parsed): (r: (Parsed, Position))
    ensures r.1.Somewhere? ==> r.1.at <= |b|
  {
    match Find(b, 0, {'#'})
    case Nowhere => (p, Nowhere)
    case Somewhere(hash) =>
      match Find(b, hash + 1, {','})
      case Nowhere => (p, Nowhere)
      case Somewhere(comma1) =>
        match Find(b, comma1 + 1, {','})
        case Nowhere => (p.(cmd := b[hash + 1]), Nowhere)
        case Somewhere(comma2) => (p.(cmd := b[hash + 1], subCmd := b[comma1 + 1]), Somewhere(comma2 + 1))
  }

  function Parse(b: seq<char>, p: Parsed): (r: Parsed) {
    var (q, s) := ParseHead(b, p);
    if s.Nowhere? then q.(status := Fault) else ParseCount(b, s.at, q)
  }

  // ---------- when a parse succeeds ----------

  /** The '#', and the three commas behind it. */
  ghost predicate HeadAt(b: seq<char>, hash: nat, comma1: nat, comma2: nat, comma3: nat) {
    && hash < comma1 < comma2 < comma3 < |b|
    && Find(b, 0, {'#'}) == Somewhere(hash)
    && Find(b, hash + 1, {','}) == Somewhere(comma1)
    && Find(b, comma1 + 1, {','}) == Somewhere(comma2)
    && Find(b, comma2 + 1, {','}) == Somewhere(comma3)
  }

  /**
   With n commas and semicolons left in the text, `count` fields need count-1 of them; more
   fields than there are pointers for overrun once those are used up.
   */
  function Outcome(count: nat, n: nat): Status {
    if count <= 18 then (if n + 1 >= count then Success else Fault)
    else (if n >= 18 then Overrun else Fault)
  }

  lemma {:induction false} FieldsOutcome(b: seq<char>, s: nat, p: Parsed)
    requires s <= |b| && |p.field| < p.count && |p.field| <= NUM_FIELDS
    ensures ParseFields(b, Somewhere(s), p).status
            == Outcome(p.count, |p.field| + Count(b, s, EndOfText(b, s), {',', ';'}))
    decreases NUM_FIELDS - |p.field|
  {
    var i, e := |p.field|, EndOfText(b, s);
    FoundIsCounted(b, s, SEPARATORS);
    if i < NUM_FIELDS {
      var q := p.(field := p.field + [SkipSpaces(b, s)]);
      match Find(b, s, SEPARATORS)
      case Somewhere(at) =>
        var q' := q.(cuts := p.cuts + [at]);
        if i + 1 < p.count {
          FieldsOutcome(b, at + 1, q');
        } else {
          assert ParseFields(b, Somewhere(at + 1), q').status.Success?;
        }
      case Nowhere =>
        if i == p.count - 1 {
          assert ParseFields(b, Nowhere, q).status.Success?;
        }
    }
  }

  /**
   A parse behind a complete head: cmd and sub_cmd are the characters behind the '#' and the
   first comma, the count is the number between the second and the third, and whether it
   succeeds depends on that and on how many separators follow.
   */
  lemma ParseOutcome(b: seq<char>, p: Parsed, hash: nat, comma1: nat, comma2: nat, comma3: nat)
    requires HeadAt(b, hash, comma1, comma2, comma3)
    ensures var r, s := Parse(b, p), comma3 + 1;
            && r.cmd == b[hash + 1] && r.subCmd == b[comma1 + 1]
            && r.count == Truncate(Atoi(b[comma2 + 1..comma3]))
            && r.status == Outcome(r.count, Count(b, s, EndOfText(b, s), {',', ';'}))
  {
    var q := p.(cmd := b[hash + 1], subCmd := b[comma1 + 1]);
    assert ParseHead(b, p) == (q, Somewhere(comma2 + 1));
    var count := Truncate(Atoi(b[comma2 + 1..comma3]));
    var emptied := q.(count := count, field := [], cuts := p.cuts + [comma3]);
    assert Parse(b, p) == ParseFields(b, Somewhere(comma3 + 1), emptied);
    if count > 0 {
      FieldsOutcome(b, comma3 + 1, emptied);
    }
  }

  /** Without one it fails. */
  lemma NoHeadFails(b: seq<char>, p: Parsed)
    requires forall hash, comma1, comma2, comma3 :: !HeadAt(b, hash, comma1, comma2, comma3)
    ensures Parse(b, p).status.Fault?
  {
    var (q, s) := ParseHead(b, p);
    if s.Somewhere? && Find(b, s.at, {','}).Somewhere? {
      var hash := Find(b, 0, {'#'}).at;
      var comma1 := Find(b, hash + 1, {','}).at;
      var comma2 := Find(b, comma1 + 1, {','}).at;
      assert HeadAt(b, hash, comma1, comma2, Find(b, comma2 + 1, {','}).at);
    }
  }

  // ---------- where the fields are ----------

  /** The n-th field from s on begins behind its separator and the white space after that. */
  ghost predicate FieldBegins(b: seq<char>, s: nat, f: nat, n: nat) {
    && s <= f <= |b| && (f < |b| ==> !IsSpace(b[f]))
    && exists start: nat ::
         && s <= start <= f && Count(b, s, start, {',', ';'}) == n
         && (start == s || b[start - 1] in {',', ';'})
         && forall k :: start <= k < f ==> IsSpace(b[k])
  }

  lemma FieldBeginsHere(b: seq<char>, s: nat)
    requires s <= |b|
    ensures FieldBegins(b, s, SkipSpaces(b, s), 0)
  {
    SkipsExactly(b, s);
    assert Count(b, s, s, {',', ';'}) == 0;
  }

  lemma FieldBeginsLater(b: seq<char>, s: nat, at: nat, f: nat, n: nat)
    requires s <= |b| && Find(b, s, SEPARATORS) == Somewhere(at) && FieldBegins(b, at + 1, f, n)
    ensures FieldBegins(b, s, f, n + 1)
  {
    var start: nat :| && at + 1 <= start <= f && Count(b, at + 1, start, {',', ';'}) == n
                      && (start == at + 1 || b[start - 1] in {',', ';'})
                      && forall k :: start <= k < f ==> IsSpace(b[k]);
    FoundIsCounted(b, s, SEPARATORS);
    CountSplits(b, s, at, start, SEPARATORS);
    assert Count(b, at, start, SEPARATORS) == 1 + Count(b, at + 1, start, SEPARATORS);
  }

  lemma {:induction false} FieldsBegin(b: seq<char>, s: nat, p: Parsed, r: Parsed, k: nat)
    requires s <= |b| && |p.field| <= p.count && r == ParseFields(b, Somewhere(s), p)
    requires |p.field| <= k < |r.field|
    ensures FieldBegins(b, s, r.field[k], k - |p.field|)
    decreases NUM_FIELDS - |p.field|
  {
    var i := |p.field|;
    if i < p.count && i < NUM_FIELDS {
      FieldBeginsHere(b, s);
      var q := p.(field := p.field + [SkipSpaces(b, s)]);
      match Find(b, s, SEPARATORS)
      case Somewhere(at) =>
        var q' := q.(cuts := p.cuts + [at]);
        ParseFieldsGrows(b, Somewhere(at + 1), q');
        if k > i {
          FieldsBegin(b, at + 1, q', r, k);
          FieldBeginsLater(b, s, at, r.field[k], k - i - 1);
        }
      case Nowhere =>
        if i == p.count - 1 {
          assert ParseFields(b, Nowhere, q) == q.(status := Success);
        }
    }
  }

  /** Field k of any parse behind a complete head is the one behind k separators. */
  lemma FieldIsKth(b: seq<char>, p: Parsed, hash: nat, comma1: nat, comma2: nat, comma3: nat, k: nat)
    requires HeadAt(b, hash, comma1, comma2, comma3) && k < |Parse(b, p).field|
    ensures FieldBegins(b, comma3 + 1, Parse(b, p).field[k], k)
  {
    var q := p.(cmd := b[hash + 1], subCmd := b[comma1 + 1]);
    assert ParseHead(b, p) == (q, Somewhere(comma2 + 1));
    var count := Truncate(Atoi(b[comma2 + 1..comma3]));
    FieldsBegin(b, comma3 + 1, q.(count := count, field := [], cuts := p.cuts + [comma3]), Parse(b, p), k);
  }

  // ---------- what the fields are ----------

  ghost predicate OnSeparators(b: seq<char>, cuts: seq<nat>) {
    forall k :: 0 <= k < |cuts| ==> cuts[k] < |b| && (b[cuts[k]] == ',' || b[cuts[k]] == ';')
  }

  /** Where a field that begins at f ends. */
  function End(b: seq<char>, f: nat): nat
    requires f <= |b|
  {
    Scan(b, f, SEPARATORS)
  }

  /** The field at f was ended by the given NUL write, or by the end of the text. */
  predicate EndedBy(b: seq<char>, f: nat, cuts: seq<nat>, n: nat) {
    && f <= |b|
    && (End(b, f) == |b| || b[End(b, f)] == NUL || (n < |cuts| && cuts[n] == End(b, f)))
  }

  /** Fields from the j-th on, each ended before the next begins, by NUL writes from the n-th on. */
  ghost predicate FieldsFrom(b: seq<char>, r: Parsed, j: nat, n: nat) {
    && OnSeparators(b, r.cuts)
    && (forall k :: j <= k < |r.field| ==> EndedBy(b, r.field[k], r.cuts, n + k - j))
    && (forall k :: j <= k < |r.field| - 1 ==> End(b, r.field[k]) < r.field[k + 1])
  }

  lemma FieldsFromEarlier(b: seq<char>, r: Parsed, j: nat, n: nat)
    requires j < |r.field| && FieldsFrom(b, r, j + 1, n + 1) && EndedBy(b, r.field[j], r.cuts, n)
    requires j + 1 < |r.field| ==> End(b, r.field[j]) < r.field[j + 1]
    ensures FieldsFrom(b, r, j, n)
  {
    forall k | j <= k < |r.field|
      ensures EndedBy(b, r.field[k], r.cuts, n + k - j)
    {
      if k > j {
        assert EndedBy(b, r.field[k], r.cuts, n + 1 + k - (j + 1));
      }
    }
  }

  lemma {:induction false} ParseFieldsGrows(b: seq<char>, s: Position, p: Parsed)
    requires s.Somewhere? ==> s.at <= |b|
    requires |p.field| <= p.count
    ensures var r := ParseFields(b, s, p);
            && p.field <= r.field && p.cuts <= r.cuts
            && (r.status.Success? ==> |r.field| == r.count)
    decreases NUM_FIELDS - |p.field|
  {
    if |p.field| < p.count && s.Somewhere? && |p.field| < NUM_FIELDS {
      var next := Find(b, s.at, SEPARATORS);
      var q := p.(field := p.field + [SkipSpaces(b, s.at)]);
      if next.Somewhere? {
        ParseFieldsGrows(b, Somewhere(next.at + 1), q.(cuts := p.cuts + [next.at]));
      } else if |p.field| == p.count - 1 {
        ParseFieldsGrows(b, Nowhere, q);
      }
    }
  }

  lemma {:induction false} ParseFieldsShape(b: seq<char>, s: Position, p: Parsed, i: nat, n: nat)
    requires s.Somewhere? ==> s.at <= |b|
    requires OnSeparators(b, p.cuts) && i == |p.field| <= p.count && n == |p.cuts|
    ensures var r := ParseFields(b, s, p);
            && FieldsFrom(b, r, i, n)
            && (|r.field| > i ==> s.Somewhere? && s.at <= r.field[i])
    decreases NUM_FIELDS - |p.field|
  {
    var r := ParseFields(b, s, p);
    if i < p.count && s.Somewhere? && i < NUM_FIELDS {
      var next := Find(b, s.at, SEPARATORS);
      var start := SkipSpaces(b, s.at);
      if next.Somewhere? {
        var q := p.(field := p.field + [start], cuts := p.cuts + [next.at]);
        assert r == ParseFields(b, Somewhere(next.at + 1), q);
        ParseFieldsGrows(b, Somewhere(next.at + 1), q);
        assert r.field[i] == q.field[i] && r.cuts[n] == q.cuts[n];
        ParseFieldsShape(b, Somewhere(next.at + 1), q, i + 1, n + 1);
        FirstOfFields(b, s.at, next.at, r, i, n);
      } else if i == p.count - 1 {
        SkipThenScan(b, s.at, SEPARATORS);
        assert r == p.(status := Success, field := p.field + [start]);
      }
    }
  }

  /** The field that a separator was found for. */
  lemma FirstOfFields(b: seq<char>, s: nat, next: nat, r: Parsed, i: nat, n: nat)
    requires s <= |b| && Find(b, s, SEPARATORS) == Somewhere(next)
    requires i < |r.field| && r.field[i] == SkipSpaces(b, s) && n < |r.cuts| && r.cuts[n] == next
    requires FieldsFrom(b, r, i + 1, n + 1) && (i + 1 < |r.field| ==> next < r.field[i + 1])
    ensures FieldsFrom(b, r, i, n) && s <= r.field[i]
  {
    SkipThenScan(b, s, SEPARATORS);
    FieldsFromEarlier(b, r, i, n);
  }

  /** However many of the NULs are written, from its own on, a field reads as it did. */
  lemma TextOfField(b: seq<char>, f: nat, cuts: seq<nat>, n: nat)
    requires EndedBy(b, f, cuts, n) && OnSeparators(b, cuts)
    ensures Text(Blank(b, cuts), f) == b[f..End(b, f)]
  {
    var e := End(b, f);
    ScanStops(b, f, SEPARATORS);
    var blank := Blank(b, cuts);
    if e < |b| {
      if b[e] == ',' || b[e] == ';' {
        assert cuts[n] in cuts;
      }
      assert blank[e] == NUL;
      ScanIs(blank, f, {}, e);
    } else {
      ScanStops(blank, f, {});
    }
    assert blank[f..e] == b[f..e];
  }

  /** Every field reads as a slice of the buffer as it was, up to its separator. */
  ghost predicate Slices(b: seq<char>, r: Parsed) {
    && (forall k :: 0 <= k < |r.field| ==>
          && r.field[k] <= |b|
          && Text(Blank(b, r.cuts), r.field[k]) == b[r.field[k]..End(b, r.field[k])]
          && (forall c :: c in Text(Blank(b, r.cuts), r.field[k]) ==> c != ',' && c != ';'))
    && (forall k :: 0 <= k < |r.field| - 1 ==>
          r.field[k] + |Text(Blank(b, r.cuts), r.field[k])| < r.field[k + 1])
  }

  /** The NULs written for later fields change none of the earlier ones. */
  ghost predicate Undisturbed(b: seq<char>, r: Parsed) {
    forall k, n :: 0 <= k < |r.field| && k + 2 <= n <= |r.cuts| ==>
      r.field[k] <= |b| && Text(Blank(b, r.cuts[..n]), r.field[k]) == Text(Blank(b, r.cuts), r.field[k])
  }

  lemma FieldsFromAreSlices(b: seq<char>, r: Parsed)
    requires FieldsFrom(b, r, 0, 1)
    ensures Slices(b, r) && Undisturbed(b, r)
  {
    forall k | 0 <= k < |r.field|
      ensures r.field[k] <= |b|
      ensures Text(Blank(b, r.cuts), r.field[k]) == b[r.field[k]..End(b, r.field[k])]
      ensures forall c :: c in Text(Blank(b, r.cuts), r.field[k]) ==> c != ',' && c != ';'
    {
      assert EndedBy(b, r.field[k], r.cuts, 1 + k - 0);
      TextOfField(b, r.field[k], r.cuts, k + 1);
      ScanStops(b, r.field[k], SEPARATORS);
    }
    forall k, n | 0 <= k < |r.field| && k + 2 <= n <= |r.cuts|
      ensures Text(Blank(b, r.cuts[..n]), r.field[k]) == b[r.field[k]..End(b, r.field[k])]
    {
      assert EndedBy(b, r.field[k], r.cuts, 1 + k - 0);
      TextOfField(b, r.field[k], r.cuts[..n], k + 1);
    }
  }

  /**
   After a successful parse every field is a NUL-terminated slice of the buffer as it was,
   free of separators, ending before the next begins; and NULs written for later fields
   never changed it.
   */
  lemma FieldsAreSlices(b: seq<char>, p: Parsed)
    requires p.cuts == [] && Parse(b, p).status.Success?
    ensures var r := Parse(b, p); |r.field| == r.count && Slices(b, r) && Undisturbed(b, r)
  {
    ParseShape(b, p);
    FieldsFromAreSlices(b, Parse(b, p));
  }

  lemma ParseShape(b: seq<char>, p: Parsed)
    requires p.cuts == [] && Parse(b, p).status.Success?
    ensures var r := Parse(b, p);
            |r.field| == r.count && FieldsFrom(b, r, 0, 1)
  {
    var (q, s) := ParseHead(b, p);
    CountShape(b, s.at, q, Parse(b, p));
  }

  lemma CountShape(b: seq<char>, s: nat, p: Parsed, r: Parsed)
    requires s <= |b| && p.cuts == [] && r == ParseCount(b, s, p) && r.status.Success?
    ensures |r.field| == r.count && FieldsFrom(b, r, 0, 1)
  {
    var comma := Find(b, s, {','}).at;
    var emptied := p.(count := Truncate(Atoi(b[s..comma])), field := [], cuts := p.cuts + [comma]);
    ParseFieldsGrows(b, Somewhere(comma + 1), emptied);
    ParseFieldsShape(b, Somewhere(comma + 1), emptied, 0, 1);
  }

  // ---------- round trip ----------

  /** Text that a field can hold. */
  ghost predicate Clean(t: string) {
    forall k :: 0 <= k < |t| ==> t[k] != NUL && t[k] != ',' && t[k] != ';'
  }

  ghost predicate AllClean(fields: seq<string>) {
    forall k :: 0 <= k < |fields| ==> Clean(fields[k])
  }

  /** A command character strchr does not stop at. */
  predicate Plain(c: char) {
    c != NUL && c != ','
  }

  function Body(cmd: char, subCmd: char, fields: seq<string>): string {
    Head(cmd, subCmd, |fields|) + Join(fields)
  }

  /** b[at..] begins with t, which ends at e. */
  ghost predicate Holds(b: seq<char>, at: nat, t: string, e: nat) {
    at + |t| == e < |b| && b[at..e] == t
  }

  lemma JoinStartsWithComma(fields: seq<string>)
    requires fields != []
    ensures Join(fields) != "" && Join(fields)[0] == ','
  {
  }

  lemma HoldsParts(b: seq<char>, at: nat, t: string, u: string, e: nat)
    requires Holds(b, at, t + u, e)
    ensures Holds(b, at, t, at + |t|) && Holds(b, at + |t|, u, e)
    ensures u != "" ==> b[at + |t|] == u[0]
  {
    assert b[at..at + |t|] == b[at..e][..|t|] && b[at + |t|..e] == b[at..e][|t|..];
  }

  /** The text is over: a semicolon, or the NUL that may have replaced it. */
  predicate Terminated(b: seq<char>, e: nat) {
    e < |b| && (b[e] == ';' || b[e] == NUL)
  }

  /** The first field of a joined list, and what follows it. */
  lemma JoinedField(b: seq<char>, s: nat, fields: seq<string>, e: nat)
    requires fields != [] && s > 0 && Holds(b, s - 1, Join(fields), e)
    ensures var end := s + |fields[0]|;
            && end <= e && b[s..end] == fields[0]
            && Holds(b, end, Join(fields[1..]), e)
            && (|fields| > 1 ==> end < e && b[end] == ',')
  {
    assert Join(fields) == "," + (fields[0] + Join(fields[1..]));
    HoldsParts(b, s - 1, ",", fields[0] + Join(fields[1..]), e);
    HoldsParts(b, s, fields[0], Join(fields[1..]), e);
    if |fields| > 1 {
      JoinStartsWithComma(fields[1..]);
    }
  }

  /** The field at f is the given text without its leading white space. */
  ghost predicate FieldIs(b: seq<char>, f: nat, t: string) {
    f <= |b| && b[f..End(b, f)] == TrimLeft(t)
  }

  lemma OneField(b: seq<char>, s: nat, t: string, end: nat)
    requires Clean(t) && Holds(b, s, t, end) && (b[end] == ',' || Terminated(b, end))
    ensures Find(b, s, SEPARATORS) == if b[end] == NUL then Nowhere else Somewhere(end)
    ensures FieldIs(b, SkipSpaces(b, s), t)
  {
    assert forall k :: s <= k < end ==> b[k] == b[s..end][k - s];
    ScanIs(b, s, SEPARATORS, end);
    FieldFound(b, s, end);
  }

  /** A field without its leading white space, in place and as a text. */
  lemma FieldFound(b: seq<char>, s: nat, end: nat)
    requires s <= end < |b| && Scan(b, s, SEPARATORS) == end && !IsSpace(b[end])
    ensures FieldIs(b, SkipSpaces(b, s), b[s..end])
  {
    SkipThenScan(b, s, SEPARATORS);
    SkipInPiece(b, s, end, 0);
    var start := SkipSpaces(b, s);
    assert b[start..end] == b[s..end][start - s..];
  }

  /** Parsing a field before others. */
  lemma ParseInner(b: seq<char>, s: nat, t: string, end: nat, p: Parsed)
    requires Clean(t) && Holds(b, s, t, end) && b[end] == ','
    requires |p.field| < p.count && |p.field| < NUM_FIELDS
    ensures ParseFields(b, Somewhere(s), p)
            == ParseFields(b, Somewhere(end + 1), p.(field := p.field + [SkipSpaces(b, s)], cuts := p.cuts + [end]))
    ensures FieldIs(b, SkipSpaces(b, s), t)
  {
    OneField(b, s, t, end);
    assert Find(b, s, SEPARATORS) == Somewhere(end);
  }

  /** Parsing the last field, which may have lost its semicolon. */
  lemma ParseLast(b: seq<char>, s: nat, t: string, end: nat, p: Parsed)
    requires Clean(t) && Holds(b, s, t, end) && Terminated(b, end)
    requires |p.field| == p.count - 1 < NUM_FIELDS
    ensures var r := ParseFields(b, Somewhere(s), p);
            r.status.Success? && r.field == p.field + [SkipSpaces(b, s)]
    ensures FieldIs(b, SkipSpaces(b, s), t)
  {
    OneField(b, s, t, end);
    var q := p.(field := p.field + [SkipSpaces(b, s)]);
    if b[end] == NUL {
      assert ParseFields(b, Nowhere, q) == q.(status := Success);
    } else {
      var q' := q.(cuts := p.cuts + [end]);
      assert ParseFields(b, Somewhere(end + 1), q') == q'.(status := Success);
    }
  }

  /** The fields of r from the i-th on are the given texts. */
  ghost predicate FieldsAre(b: seq<char>, field: seq<nat>, i: nat, texts: seq<string>) {
    |field| == i + |texts| && forall k :: i <= k < |field| ==> FieldIs(b, field[k], texts[k - i])
  }

  /** Fields from s on, each before a comma but the last, which ends the text at e. */
  ghost predicate Laid(b: seq<char>, s: nat, fields: seq<string>, e: nat)
    decreases |fields|
  {
    fields != [] &&
    var end := s + |fields[0]|;
    && Clean(fields[0]) && Holds(b, s, fields[0], end)
    && (if |fields| == 1 then end == e && Terminated(b, e)
        else b[end] == ',' && Laid(b, end + 1, fields[1..], e))
  }

  lemma {:induction false} JoinedIsLaid(b: seq<char>, s: nat, fields: seq<string>, e: nat)
    requires fields != [] && AllClean(fields)
    requires s > 0 && Holds(b, s - 1, Join(fields), e) && Terminated(b, e)
    ensures Laid(b, s, fields, e)
    decreases |fields|
  {
    JoinedField(b, s, fields, e);
    assert Clean(fields[0]);
    if |fields| > 1 {
      JoinedIsLaid(b, s + |fields[0]| + 1, fields[1..], e);
    }
  }

  lemma LastReadsBack(b: seq<char>, s: nat, t: string, e: nat, p: Parsed, i: nat, r: Parsed)
    requires Clean(t) && Holds(b, s, t, e) && Terminated(b, e)
    requires i == |p.field| == p.count - 1 < NUM_FIELDS
    requires r == ParseFields(b, Somewhere(s), p)
    ensures r.status.Success? && p.field <= r.field && FieldsAre(b, r.field, i, [t])
  {
    ParseLast(b, s, t, e, p);
  }

  lemma InnerReadsBack(b: seq<char>, s: nat, fields: seq<string>, e: nat, p: Parsed, i: nat, r: Parsed)
    returns (q: Parsed)
    requires Laid(b, s, fields, e) && |fields| > 1
    requires i == |p.field| && i + |fields| == p.count <= NUM_FIELDS
    requires r == ParseFields(b, Somewhere(s), p)
    ensures Laid(b, s + |fields[0]| + 1, fields[1..], e)
    ensures s <= |b| && q.field == p.field + [SkipSpaces(b, s)] && q.count == p.count
    ensures FieldIs(b, SkipSpaces(b, s), fields[0])
    ensures r == ParseFields(b, Somewhere(s + |fields[0]| + 1), q)
  {
    var end := s + |fields[0]|;
    ParseInner(b, s, fields[0], end, p);
    q := p.(field := p.field + [SkipSpaces(b, s)], cuts := p.cuts + [end]);
  }

  lemma {:induction false} FieldsReadBack(b: seq<char>, s: nat, fields: seq<string>, e: nat,
                                          p: Parsed, i: nat, r: Parsed)
    requires Laid(b, s, fields, e)
    requires i == |p.field| && i + |fields| == p.count <= NUM_FIELDS
    requires r == ParseFields(b, Somewhere(s), p)
    ensures r.status.Success? && p.field <= r.field && FieldsAre(b, r.field, i, fields)
    decreases |fields|
  {
    if |fields| == 1 {
      LastReadsBack(b, s, fields[0], e, p, i, r);
      assert fields == [fields[0]];
    } else {
      var q := InnerReadsBack(b, s, fields, e, p, i, r);
      FieldsReadBack(b, s + |fields[0]| + 1, fields[1..], e, q, i + 1, r);
      FieldsJoin(b, r.field, p.field, SkipSpaces(b, s), fields, i);
    }
  }

  lemma FieldsJoin(b: seq<char>, field: seq<nat>, before: seq<nat>, f: nat, texts: seq<string>, i: nat)
    requires before + [f] <= field && texts != [] && i == |before|
    requires FieldIs(b, f, texts[0])
    requires FieldsAre(b, field, i + 1, texts[1..])
    ensures before <= field && FieldsAre(b, field, i, texts)
  {
    forall k | i <= k < |field|
      ensures FieldIs(b, field[k], texts[k - i])
    {
      if k == i {
        assert field[k] == (before + [f])[k];
      } else {
        assert texts[1..][k - (i + 1)] == texts[k - i];
      }
    }
  }

  /** The characters of a packet's head. */
  lemma HeadHolds(b: seq<char>, at: nat, cmd: char, subCmd: char, count: nat, e: nat)
    requires Holds(b, at, Head(cmd, subCmd, count), e)
    ensures at + 5 < e
    ensures b[at] == '#' && b[at + 1] == cmd && b[at + 2] == ',' && b[at + 3] == subCmd && b[at + 4] == ','
    ensures b[at + 5..e] == Digits(count)
    ensures forall k :: at + 5 <= k < e ==> IsDigit(b[k])
  {
    var head := b[at..e];
    assert |head| == 5 + |Digits(count)| && head[5..] == Digits(count);
    assert b[at] == head[0] && b[at + 1] == head[1] && b[at + 2] == head[2];
    assert b[at + 3] == head[3] && b[at + 4] == head[4];
    assert b[at + 5..e] == head[5..];
    assert forall k :: at + 5 <= k < e ==> b[k] == Digits(count)[k - at - 5];
  }

  /** Where the head of a packet is parsed to. */
  lemma HeadReadsBack(b: seq<char>, at: nat, cmd: char, subCmd: char, count: nat, e: nat, p: Parsed)
    requires Plain(cmd) && Plain(subCmd)
    requires Holds(b, at, Head(cmd, subCmd, count), e)
    requires forall k :: 0 <= k < at ==> b[k] != NUL && b[k] != '#'
    ensures at + 5 < e && ParseHead(b, p) == (p.(cmd := cmd, subCmd := subCmd), Somewhere(at + 5))
  {
    HeadHolds(b, at, cmd, subCmd, count, e);
    ScanIs(b, 0, {'#'}, at);
    ScanIs(b, at + 1, {','}, at + 2);
    ScanIs(b, at + 3, {','}, at + 4);
  }

  /**
   parse_packet undoes wu_write: wherever the printed text stands in the buffer, behind
   anything without '#' and NUL, ended by its semicolon (whatever follows) or by NUL, it
   recovers the command, the sub-command, the count, and each field without its leading
   white space.
   */
  lemma PacketReadsBack(b: seq<char>, at: nat, cmd: char, subCmd: char, fields: seq<string>, e: nat, p: Parsed)
    requires Plain(cmd) && Plain(subCmd) && AllClean(fields) && 1 <= |fields| <= NUM_FIELDS
    requires Holds(b, at, Body(cmd, subCmd, fields), e) && Terminated(b, e)
    requires forall k :: 0 <= k < at ==> b[k] != NUL && b[k] != '#'
    requires p.cuts == []
    ensures var r := Parse(b, p);
            && r.status.Success? && r.cmd == cmd && r.subCmd == subCmd && r.count == |r.field| == |fields|
            && forall k :: 0 <= k < |fields| ==>
                 r.field[k] <= |b| && Text(Blank(b, r.cuts), r.field[k]) == TrimLeft(fields[k])
  {
    BodyParts(b, at, Head(cmd, subCmd, |fields|), fields, e);
    var comma := at + |Head(cmd, subCmd, |fields|)|;
    HeadThenFields(b, at, cmd, subCmd, |fields|, comma, p);
    BodyReadsBack(b, comma, cmd, subCmd, fields, e, p.status, Parse(b, p));
    ParseShape(b, p);
    SlicesAreTexts(b, fields, Parse(b, p));
  }

  lemma BodyReadsBack(b: seq<char>, comma: nat, cmd: char, subCmd: char, fields: seq<string>, e: nat,
                      status: Status, r: Parsed)
    requires AllClean(fields) && 1 <= |fields| <= NUM_FIELDS
    requires Holds(b, comma, Join(fields), e) && Terminated(b, e)
    requires r == ParseFields(b, Somewhere(comma + 1), Parsed(status, cmd, subCmd, |fields|, [], [comma]))
    ensures r.status.Success? && r.cmd == cmd && r.subCmd == subCmd && r.count == |fields|
    ensures FieldsAre(b, r.field, 0, fields)
  {
    JoinedIsLaid(b, comma + 1, fields, e);
    LaidFieldsParse(b, comma + 1, cmd, subCmd, fields, e, status, [comma]);
  }

  lemma SlicesAreTexts(b: seq<char>, fields: seq<string>, r: Parsed)
    requires FieldsFrom(b, r, 0, 1) && FieldsAre(b, r.field, 0, fields)
    ensures |r.field| == |fields|
    ensures forall k :: 0 <= k < |fields| ==>
              r.field[k] <= |b| && Text(Blank(b, r.cuts), r.field[k]) == TrimLeft(fields[k])
  {
    FieldsFromAreSlices(b, r);
    forall k | 0 <= k < |fields|
      ensures r.field[k] <= |b| && Text(Blank(b, r.cuts), r.field[k]) == TrimLeft(fields[k])
    {
      assert FieldIs(b, r.field[k], fields[k - 0]);
    }
  }

  /** A packet with fields is its head, up to a comma, and its fields from there. */
  lemma BodyParts(b: seq<char>, at: nat, head: string, fields: seq<string>, e: nat)
    requires fields != [] && Holds(b, at, head + Join(fields), e)
    ensures var comma := at + |head|;
            && Holds(b, at, head, comma)
            && Holds(b, comma, Join(fields), e)
            && b[comma] == ','
  {
    HoldsParts(b, at, head, Join(fields), e);
    JoinStartsWithComma(fields);
  }

  lemma LaidFieldsParse(b: seq<char>, s: nat, cmd: char, subCmd: char, fields: seq<string>, e: nat,
                        status: Status, cuts: seq<nat>)
    requires Laid(b, s, fields, e) && |fields| <= NUM_FIELDS
    ensures var r := ParseFields(b, Somewhere(s), Parsed(status, cmd, subCmd, |fields|, [], cuts));
            && r.status.Success? && r.cmd == cmd && r.subCmd == subCmd && r.count == |fields|
            && FieldsAre(b, r.field, 0, fields)
  {
    var p := Parsed(status, cmd, subCmd, |fields|, [], cuts);
    FieldsReadBack(b, s, fields, e, p, 0, ParseFields(b, Somewhere(s), p));
  }

  /** After the head, the fields are parsed with the count it gives. */
  lemma HeadThenFields(b: seq<char>, at: nat, cmd: char, subCmd: char, count: nat, e: nat, p: Parsed)
    requires Plain(cmd) && Plain(subCmd) && count <= NUM_FIELDS && p.cuts == []
    requires Holds(b, at, Head(cmd, subCmd, count), e) && b[e] == ','
    requires forall k :: 0 <= k < at ==> b[k] != NUL && b[k] != '#'
    ensures Parse(b, p) == ParseFields(b, Somewhere(e + 1), Parsed(p.status, cmd, subCmd, count, [], [e]))
  {
    HeadReadsBack(b, at, cmd, subCmd, count, e, p);
    CommaAfterCount(b, at, cmd, subCmd, count, e);
    AtoiOfDigits(count);
    SmallWord(count);
    FirstCut(p.cuts, e);
  }

  lemma SmallWord(n: nat)
    requires n < MODULUS
    ensures Truncate(n) == n
  {
  }

  lemma FirstCut(cuts: seq<nat>, e: nat)
    requires cuts == []
    ensures cuts + [e] == [e]
  {
  }

  lemma CommaAfterCount(b: seq<char>, at: nat, cmd: char, subCmd: char, count: nat, e: nat)
    requires Holds(b, at, Head(cmd, subCmd, count), e) && b[e] == ','
    ensures at + 5 < e && Find(b, at + 5, {','}) == Somewhere(e) && b[at + 5..e] == Digits(count)
  {
    HeadHolds(b, at, cmd, subCmd, count, e);
    ScanIs(b, at + 5, {','}, e);
  }

  /** Without fields there is no comma after the count. */
  lemma NoCommaAfterCount(b: seq<char>, at: nat, cmd: char, subCmd: char, e: nat)
    requires Holds(b, at, Head(cmd, subCmd, 0), e) && b[e] == ';' && e + 1 < |b| && b[e + 1] == NUL
    ensures at + 5 < e && Find(b, at + 5, {','}) == Nowhere
  {
    HeadHolds(b, at, cmd, subCmd, 0, e);
    ScanIs(b, at + 5, {','}, e + 1);
  }

  // ---------- a printed packet ----------

  /** A cleared buffer with a text at its start. */
  function Padded(text: string): (b: seq<char>)
    requires |text| <= BUFFER_SIZE
    ensures |b| == BUFFER_SIZE
  {
    text + seq(BUFFER_SIZE - |text|, _ => NUL)
  }

  /** What wu_write prints of a packet: as many fields as fit, and the semicolon if all do. */
  function Printed(cmd: char, subCmd: char, fields: seq<string>): (text: string)
    requires |fields| <= NUM_FIELDS
    ensures |text| < BUFFER_SIZE
  {
    var head := Head(cmd, subCmd, |fields|);
    var n := Fitting(|head|, fields);
    HeadIsShort(cmd, subCmd, |fields|);
    FittingLength(|head|, fields);
    head + Join(fields[..n]) + if n == |fields| then ";" else ""
  }

  lemma HeadIsShort(cmd: char, subCmd: char, count: nat)
    requires count <= NUM_FIELDS
    ensures |Head(cmd, subCmd, count)| <= 7
  {
    assert |Digits(count / 10)| == 1;
    assert |Digits(count)| <= 2;
  }

  lemma {:induction false} FittingLength(len: nat, fields: seq<string>)
    requires len + 3 < BUFFER_SIZE
    ensures len + |Join(fields[..Fitting(len, fields)])| + 3 < BUFFER_SIZE
    decreases |fields|
  {
    if fields != [] && len + |fields[0]| + 4 < BUFFER_SIZE {
      FittingLength(len + 1 + |fields[0]|, fields[1..]);
      var n := Fitting(len, fields);
      assert fields[..n][1..] == fields[1..][..n - 1];
    }
  }

  /** So many fields are printed as leave room for three characters more, and no fewer. */
  lemma {:induction false} FittingIsMost(len: nat, fields: seq<string>, m: nat)
    requires m <= |fields|
    ensures m <= Fitting(len, fields) <==> m == 0 || len + |Join(fields[..m])| + 3 < 256
    decreases |fields|
  {
    if m > 0 {
      var later := fields[1..];
      assert fields[..m][1..] == later[..m - 1] && fields[..m][0] == fields[0];
      FittingIsMost(len + 1 + |fields[0]|, later, m - 1);
      assert m == 1 ==> Join(later[..0]) == "";
    }
  }

  /**
   What is printed: the head and the first fields, all of them with a semicolon exactly when
   the whole text before it is shorter than 253 characters or there is no field.
   */
  lemma PrintedExactly(cmd: char, subCmd: char, fields: seq<string>)
    requires |fields| <= NUM_FIELDS
    ensures var text := "#" + [cmd] + "," + [subCmd] + "," + Digits(|fields|) + Join(fields);
            && (Fits(cmd, subCmd, fields) <==> fields == [] || |text| < 253)
            && (Fits(cmd, subCmd, fields) ==> Printed(cmd, subCmd, fields) == text + ";")
            && (!Fits(cmd, subCmd, fields) ==> Printed(cmd, subCmd, fields) <= text)
  {
    var head := Head(cmd, subCmd, |fields|);
    var n := Fitting(|head|, fields);
    assert fields[..|fields|] == fields;
    assert head == "#" + [cmd] + "," + [subCmd] + "," + Digits(|fields|);
    FittingIsMost(|head|, fields, |fields|);
    JoinSplits(fields, n);
    assert head + Join(fields) == head + Join(fields[..n]) + Join(fields[n..]);
  }

  lemma {:induction false} JoinSplits(fields: seq<string>, n: nat)
    requires n <= |fields|
    ensures Join(fields) == Join(fields[..n]) + Join(fields[n..])
  {
    if n > 0 {
      JoinSplits(fields[1..], n - 1);
      assert fields[..n][1..] == fields[1..][..n - 1] && fields[1..][n - 1..] == fields[n..];
    } else {
      assert fields[0..] == fields;
    }
  }

  /** wu_write reports no overflow. */
  predicate Fits(cmd: char, subCmd: char, fields: seq<string>) {
    Fitting(|Head(cmd, subCmd, |fields|)|, fields) == |fields|
  }

  /**
   A packet that wu_write prints without overflow is parsed back, field by field, exactly
   when it has a field at all: without one there is no comma after the count.
   */
  lemma PrintedReadsBackExactly(cmd: char, subCmd: char, fields: seq<string>, p: Parsed)
    requires Plain(cmd) && Plain(subCmd) && AllClean(fields) && |fields| <= NUM_FIELDS
    requires Fits(cmd, subCmd, fields) && p.cuts == []
    ensures var b := Padded(Printed(cmd, subCmd, fields));
            var r := Parse(b, p);
            && (r.status.Success? <==> fields != [])
            && (fields == [] ==> r.status.Fault?)
            && (fields != [] ==>
                  && r.cmd == cmd && r.subCmd == subCmd && r.count == |r.field| == |fields|
                  && forall k :: 0 <= k < |fields| ==>
                       r.field[k] <= |b| && Text(Blank(b, r.cuts), r.field[k]) == TrimLeft(fields[k]))
  {
    var b := Padded(Printed(cmd, subCmd, fields));
    var body := Body(cmd, subCmd, fields);
    assert fields[..|fields|] == fields;
    assert Holds(b, 0, body, |body|) && b[|body|] == ';';
    if fields == [] {
      assert body == Head(cmd, subCmd, 0);
      HeadReadsBack(b, 0, cmd, subCmd, 0, |body|, p);
      NoCommaAfterCount(b, 0, cmd, subCmd, |body|);
    } else {
      PacketReadsBack(b, 0, cmd, subCmd, fields, |body|, p);
    }
  }

  lemma {:induction false} JoinAppend(fields: seq<string>, t: string)
    ensures Join(fields + [t]) == Join(fields) + "," + t
  {
    if fields == [] {
      assert [t][1..] == [];
    } else {
      JoinAppend(fields[1..], t);
      assert (fields + [t])[1..] == fields[1..] + [t];
    }
  }

  // ---------- the packet in memory ----------

  /** struct wu_packet; the texts that wu_write prints are passed to it. */
  class Packet {
    const buf: array<char>
    var len: nat
    var cmd: char
    var subCmd: char
    var count: Word
    var field: seq<nat>

    ghost predicate Valid()
      reads this
    {
      buf.Length == BUFFER_SIZE && len <= BUFFER_SIZE
    }

    constructor (cmd: char, subCmd: char, count: Word)
      ensures Valid() && fresh(buf) && this.cmd == cmd && this.subCmd == subCmd && this.count == count
    {
      buf := new char[BUFFER_SIZE](_ => NUL);
      len := 0;
      this.cmd, this.subCmd, this.count := cmd, subCmd, count;
      field := [];
    }

    /** sprintf into the cleared buffer, after what has been printed. */
    method Print(ghost before: string, text: string)
      requires Valid() && len == |before| && |before| + |text| < BUFFER_SIZE
      requires buf[..] == Padded(before)
      modifies this`len, buf
      ensures Valid() && len == |before + text| && buf[..] == Padded(before + text)
    {
      for i := 0 to |text|
        modifies buf
        invariant len == |before|
        invariant buf[..] == Padded(before + text[..i])
      {
        buf[len + i] := text[i];
        assert before + text[..i + 1] == before + text[..i] + [text[i]];
      }
      assert text[..|text|] == text;
      len := len + |text|;
    }

    /**
     wu_write: `written` is what the device's write returns; -1 also tells of EOVERFLOW,
     when nothing is sent.
     */
    method Write(texts: seq<string>, written: int) returns (ret: int, sent: seq<char>)
      requires Valid() && |texts| == count <= NUM_FIELDS
      requires forall k :: 0 <= k < |texts| ==> NUL !in texts[k]
      modifies this`len, buf
      ensures Valid()
      ensures len == |Printed(cmd, subCmd, texts)|
      ensures buf[..] == Padded(Printed(cmd, subCmd, texts))
      ensures sent == if Fits(cmd, subCmd, texts) then Printed(cmd, subCmd, texts) else ""
      ensures ret == if !Fits(cmd, subCmd, texts) then -1 else if written >= 0 then 0 else written
    {
      var ok := PrintPacket(texts);
      if !ok {
        return -1, "";
      }
      ghost var printed := Printed(cmd, subCmd, texts);
      assert buf[..][..len] == printed;
      sent := buf[..len];
      ret := if written >= 0 then 0 else written;
    }

    /** All of wu_write before that; false is an overflow. */
    method PrintPacket(texts: seq<string>) returns (ok: bool)
      requires Valid() && |texts| == count <= NUM_FIELDS
      requires forall k :: 0 <= k < |texts| ==> NUL !in texts[k]
      modifies this`len, buf
      ensures Valid()
      ensures ok <==> Fits(cmd, subCmd, texts)
      ensures len == |Printed(cmd, subCmd, texts)|
      ensures buf[..] == Padded(Printed(cmd, subCmd, texts))
    {
      Clear();
      ghost var head := Head(cmd, subCmd, count);
      HeadIsShort(cmd, subCmd, count);
      Print("", Head(cmd, subCmd, count));
      assert "" + head == head;
      ok := PrintFields(head, texts);
      if ok {
        assert texts[..count] == texts;
        Print(head + Join(texts), ";");
      } else {
        assert buf[..] == Padded(head + Join(texts[..Fitting(|head|, texts)]) + "");
      }
    }

    /** memset */
    method Clear()
      requires Valid()
      modifies this`len, buf
      ensures Valid() && len == 0 && buf[..] == Padded("")
    {
      for i := 0 to buf.Length
        invariant forall k :: 0 <= k < i ==> buf[k] == NUL
      {
        buf[i] := NUL;
      }
      len := 0;
    }

    /** The loop over the fields. */
    method PrintFields(ghost head: string, texts: seq<string>) returns (ok: bool)
      requires Valid() && |texts| == count && |head| + 3 < BUFFER_SIZE
      requires len == |head| && buf[..] == Padded(head)
      modifies this`len, buf
      ensures Valid()
      ensures ok <==> Fitting(|head|, texts) == |texts|
      ensures var text := head + Join(texts[..Fitting(|head|, texts)]);
              len == |text| < BUFFER_SIZE - 3 && buf[..] == Padded(text)
    {
      var i := 0;
      assert head + Join(texts[..0]) == head;
      while i < count
        invariant i <= count
        invariant len == |head| + |Join(texts[..i])| < BUFFER_SIZE - 3
        invariant buf[..] == Padded(head + Join(texts[..i]))
        invariant Fitting(|head|, texts) == i + Fitting(len, texts[i..])
      {
        if len + |texts[i]| + 4 >= BUFFER_SIZE {
          return false;
        }
        assert texts[..i + 1] == texts[..i] + [texts[i]];
        JoinAppend(texts[..i], texts[i]);
        Print(head + Join(texts[..i]), "," + texts[i]);
        assert head + Join(texts[..i]) + ("," + texts[i]) == head + Join(texts[..i + 1]);
        assert texts[i..][1..] == texts[i + 1..];
        i := i + 1;
      }
      ok := true;
    }

    /** A buffer with a NUL written behind the text read into it. */
    static function TerminatedAt(b: seq<char>, n: nat): (terminated: seq<char>)
      ensures |terminated| == |b|
    {
      if n < |b| then b[n := NUL] else b
    }

    /** The members a parse changes. */
    ghost function Members(): Parsed
      reads this
    {
      Parsed(Success, cmd, subCmd, count, field, [])
    }

    /**
     parse_packet: the members it leaves, and the NULs it leaves in the buffer, are those
     of the parse of the buffer as it was.  With 256 bytes read the terminator falls on the
     low byte of `len`, which lies behind the buffer: little-endian, that is 0 already, and
     ends the text.
     */
    method ParsePacket() returns (status: Status)
      requires Valid()
      modifies this, buf
      ensures Valid() && len == old(len)
      ensures var b := TerminatedAt(old(buf[..]), len);
              var p := Parse(b, old(Members()));
              && status == p.status
              && Members() == p.(status := Success, cuts := [])
              && buf[..] == Blank(b, p.cuts)
    {
      if len < BUFFER_SIZE {
        buf[len] := NUL;
      }
      ghost var b := buf[..];
      assert b == TerminatedAt(old(buf[..]), len);
      assert Blank(b, []) == b;
      ghost var cuts;
      var s := ParseCommand();
      if s.Nowhere? {
        status, cuts := Fault, [];
      } else {
        status, cuts := ParseParameters(b, s.at);
      }
    }

    /** Everything up to the count. */
    method ParseCommand() returns (s: Position)
      requires Valid()
      modifies this`cmd, this`subCmd
      ensures var (p, at) := ParseHead(buf[..], old(Members()));
              Members() == p && s == at
    {
      var hash := Find(buf[..], 0, {'#'});
      if hash.Nowhere? {
        return Nowhere;
      }
      var next := Find(buf[..], hash.at + 1, {','});
      if next.Nowhere? {
        return Nowhere;
      }
      cmd := buf[hash.at + 1];
      var from := next.at + 1;
      next := Find(buf[..], from, {','});
      if next.Nowhere? {
        return Nowhere;
      }
      subCmd := buf[from];
      s := Somewhere(next.at + 1);
    }

    /** The count, and the loop over the fields. */
    method ParseParameters(ghost b: seq<char>, s: nat) returns (status: Status, ghost cuts: seq<nat>)
      requires Valid() && b == buf[..] && s <= BUFFER_SIZE
      modifies this`count, this`field, buf
      ensures var p := ParseCount(b, s, old(Members()));
              && status == p.status
              && Members() == p.(status := Success, cuts := []) && cuts == p.cuts
              && buf[..] == Blank(b, cuts)
    {
      cuts := [];
      var next := Find(buf[..], s, {','});
      if next.Nowhere? {
        return Fault, [];
      }
      buf[next.at] := NUL;
      cuts := [next.at];
      count := Truncate(Atoi(buf[s..next.at]));
      assert buf[s..next.at] == b[s..next.at];
      field := [];
      assert Members().(cuts := cuts) == old(Members()).(count := count, field := [], cuts := [] + [next.at]);
      status, cuts := SplitFields(b, next.at + 1, cuts);
    }

    /** The loop over the fields. */
    method SplitFields(ghost b: seq<char>, from: nat, ghost cuts0: seq<nat>)
      returns (status: Status, ghost cuts: seq<nat>)
      requires Valid() && |b| == BUFFER_SIZE && from <= BUFFER_SIZE && field == []
      requires buf[..] == Blank(b, cuts0) && forall k :: k in cuts0 ==> k < from
      modifies this`field, buf
      ensures var p := ParseFields(b, Somewhere(from), Parsed(Success, cmd, subCmd, count, [], cuts0));
              status == p.status && field == p.field && cuts == p.cuts
      ensures buf[..] == Blank(b, cuts)
    {
      cuts := cuts0;
      var at := Somewhere(from);
      var i := 0;
      ghost var goal := ParseFields(b, at, Parsed(Success, cmd, subCmd, count, [], cuts));
      while i < count
        invariant i == |field| <= count
        invariant at.Somewhere? ==> at.at <= BUFFER_SIZE && forall k :: k in cuts ==> k < at.at
        invariant buf[..] == Blank(b, cuts)
        invariant goal == ParseFields(b, at, Parsed(Success, cmd, subCmd, count, field, cuts))
      {
        if at.Nowhere? || i >= NUM_FIELDS {
          return Overrun, cuts;
        }
        var start;
        at, start, cuts := SplitField(b, at.at, cuts);
        if at.Nowhere? && i < count - 1 {
          return Fault, cuts;
        }
        field := field + [start];
        i := i + 1;
      }
      status := Success;
    }

    /** Terminates the field at s, and skips its leading white space. */
    method SplitField(ghost b: seq<char>, s: nat, ghost cuts0: seq<nat>)
      returns (next: Position, start: nat, ghost cuts: seq<nat>)
      requires Valid() && |b| == BUFFER_SIZE && s <= BUFFER_SIZE
      requires buf[..] == Blank(b, cuts0) && forall k :: k in cuts0 ==> k < s
      modifies buf
      ensures var end := Find(b, s, SEPARATORS);
              && next == (if end.Somewhere? then Somewhere(end.at + 1) else Nowhere)
              && cuts == (if end.Somewhere? then cuts0 + [end.at] else cuts0)
      ensures start == SkipSpaces(b, s)
      ensures buf[..] == Blank(b, cuts)
    {
      ScanAhead(buf[..], b, s, SEPARATORS);
      var end := Find(buf[..], s, SEPARATORS);
      cuts := cuts0;
      next := Nowhere;
      if end.Somewhere? {
        buf[end.at] := NUL;
        cuts := cuts + [end.at];
        next := Somewhere(end.at + 1);
        SkipAhead(buf[..], b, s, end.at);
      } else {
        SkipSame(buf[..], b, s);
      }
      start := s;
      while start < buf.Length && IsSpace(buf[start])
        invariant s <= start <= buf.Length
        invariant SkipSpaces(buf[..], s) == SkipSpaces(buf[..], start)
      {
        start := start + 1;
      }
    }
  }
}
