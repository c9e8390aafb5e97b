/** The C string functions the meter programs call, on buffers of characters. */
module CStrings {

  const NUL := '\0'

  /** The first position from s on that holds NUL or one of the stops, or the buffer's size. */
  function Scan(b: seq<char>, s: nat, stops: set<char>): (j: nat)
    requires s <= |b|
    ensures s <= j <= |b|
    ensures j < |b| ==> b[j] == NUL || b[j] in stops
    decreases |b| - s
  {
    if s == |b| || b[s] == NUL || b[s] in stops then s else Scan(b, s + 1, stops)
  }

  datatype Position = Nowhere | Somewhere(at: nat)

  /** strpbrk; with one stop, strchr. */
  function Find(b: seq<char>, s: nat, stops: set<char>): (p: Position)
    requires s <= |b|
    ensures p.Somewhere? ==> s <= p.at < |b| && b[p.at] != NUL && b[p.at] in stops
  {
    var j := Scan(b, s, stops);
    if j < |b| && b[j] != NUL then Somewhere(j) else Nowhere
  }

  /** The first stop before any NUL, or the assurance that there is none. */
  lemma FindsFirst(b: seq<char>, s: nat, stops: set<char>)
    requires s <= |b|
    ensures match Find(b, s, stops)
            case Somewhere(at) =>
              && s <= at < |b| && b[at] in stops
              && forall k :: s <= k <= at ==> b[k] != NUL && (k < at ==> b[k] !in stops)
            case Nowhere =>
              forall k :: s <= k < |b| && b[k] in stops && b[k] != NUL ==> exists m :: s <= m < k && b[m] == NUL
  {
    ScanStops(b, s, stops);
  }

  /** How many of the characters stand among the positions [from, end). */
  function Count(b: seq<char>, from: nat, end: nat, stops: set<char>): nat
    requires from <= end <= |b|
    decreases end - from
  {
    if from == end then 0 else (if b[from] in stops then 1 else 0) + Count(b, from + 1, end, stops)
  }

  /** Where the C string at s ends. */
  function EndOfText(b: seq<char>, s: nat): (e: nat)
    requires s <= |b|
    ensures s <= e <= |b|
  {
    Scan(b, s, {})
  }

  /** A found stop is the first one left in the text; none found, none left. */
  lemma {:induction false} FoundIsCounted(b: seq<char>, s: nat, stops: set<char>)
    requires s <= |b|
    ensures var e := EndOfText(b, s);
            match Find(b, s, stops)
            case Somewhere(at) =>
              && at < e && EndOfText(b, at + 1) == e
              && Count(b, s, at, stops) == 0
              && Count(b, s, e, stops) == 1 + Count(b, at + 1, e, stops)
            case Nowhere => Count(b, s, e, stops) == 0
    decreases |b| - s
  {
    if s < |b| && b[s] != NUL && b[s] !in stops {
      FoundIsCounted(b, s + 1, stops);
    }
  }

  lemma {:induction false} CountSplits(b: seq<char>, from: nat, mid: nat, end: nat, stops: set<char>)
    requires from <= mid <= end <= |b|
    ensures Count(b, from, end, stops) == Count(b, from, mid, stops) + Count(b, mid, end, stops)
    decreases mid - from
  {
    if from < mid {
      CountSplits(b, from + 1, mid, end, stops);
    }
  }

  /** The C string at s. */
  function Text(b: seq<char>, s: nat): string
    requires s <= |b|
  {
    b[s..Scan(b, s, {})]
  }

  lemma {:induction false} ScanStops(b: seq<char>, s: nat, stops: set<char>)
    requires s <= |b|
    ensures var j := Scan(b, s, stops);
            && (forall k :: s <= k < j ==> b[k] != NUL && b[k] !in stops)
            && (j < |b| ==> b[j] == NUL || b[j] in stops)
    decreases |b| - s
  {
    if s < |b| && b[s] != NUL && b[s] !in stops {
      ScanStops(b, s + 1, stops);
    }
  }

  /** Where a scan stops is determined by what it passes over. */
  lemma ScanIs(b: seq<char>, s: nat, stops: set<char>, j: nat)
    requires s <= j < |b| && (b[j] == NUL || b[j] in stops)
    requires forall k :: s <= k < j ==> b[k] != NUL && b[k] !in stops
    ensures Scan(b, s, stops) == j
  {
    ScanStops(b, s, stops);
  }

  predicate IsSpace(c: char) {
    c == ' ' || '\t' <= c <= '\r'
  }

  /** White space of the C locale: tab, line feed, vertical tab, form feed, carriage return, space. */
  lemma SpacesAre(c: char)
    ensures IsSpace(c) <==> c as int in [9, 10, 11, 12, 13, 32]
  {
  }

  /** The first position from s on that is not white space. */
  function SkipSpaces(b: seq<char>, s: nat): (j: nat)
    requires s <= |b|
    ensures s <= j <= |b|
    decreases |b| - s
  {
    if s == |b| || !IsSpace(b[s]) then s else SkipSpaces(b, s + 1)
  }

  lemma {:induction false} SkipsExactly(b: seq<char>, s: nat)
    requires s <= |b|
    ensures var j := SkipSpaces(b, s);
            (forall k :: s <= k < j ==> IsSpace(b[k])) && (j < |b| ==> !IsSpace(b[j]))
    decreases |b| - s
  {
    if s < |b| && IsSpace(b[s]) {
      SkipsExactly(b, s + 1);
    }
  }

  /** A text is white space and what trimming leaves, which does not begin with any. */
  lemma TrimsExactly(t: string)
    ensures var n := |t| - |TrimLeft(t)|;
            && n >= 0 && t[n..] == TrimLeft(t)
            && (forall k :: 0 <= k < n ==> t[k] as int in [9, 10, 11, 12, 13, 32])
            && (n < |t| ==> t[n] as int !in [9, 10, 11, 12, 13, 32])
  {
    SkipsExactly(t, 0);
  }

  function TrimLeft(t: string): string {
    t[SkipSpaces(t, 0)..]
  }

  // ---------- decimal numbers ----------

  predicate IsDigit(c: char) {
    '0' <= c <= '9'
  }

  function Digit(d: nat): char
    requires d < 10
  {
    ('0' as int + d) as char
  }

  function DigitValue(c: char): nat
    requires IsDigit(c)
  {
    c as int - '0' as int
  }

  function Digits(n: nat): (t: string)
    ensures |t| > 0 && forall k :: 0 <= k < |t| ==> IsDigit(t[k])
  {
    if n < 10 then [Digit(n)] else Digits(n / 10) + [Digit(n % 10)]
  }

  /** The number read from leading digits, on top of what has been read. */
  function ReadDigits(t: string, sofar: nat): nat
    decreases |t|
  {
    if t == [] || !IsDigit(t[0]) then sofar
    else ReadDigits(t[1..], 10 * sofar + DigitValue(t[0]))
  }

  /** atoi: white space, an optional sign, digits. */
  function Atoi(t: string): int {
    var u := TrimLeft(t);
    if u != [] && u[0] == '-' then 0 - ReadDigits(u[1..], 0) as int
    else if u != [] && u[0] == '+' then ReadDigits(u[1..], 0)
    else ReadDigits(u, 0)
  }

  lemma {:induction false} ReadDigitsAppend(t: string, d: char, sofar: nat)
    requires forall k :: 0 <= k < |t| ==> IsDigit(t[k])
    requires IsDigit(d)
    ensures ReadDigits(t + [d], sofar) == 10 * ReadDigits(t, sofar) + DigitValue(d)
    decreases |t|
  {
    if t == [] {
      assert ([] + [d])[1..] == [];
    } else {
      assert (t + [d])[1..] == t[1..] + [d];
      ReadDigitsAppend(t[1..], d, 10 * sofar + DigitValue(t[0]));
    }
  }

  lemma {:induction false} ReadsDigitsBack(n: nat)
    ensures ReadDigits(Digits(n), 0) == n
  {
    if n >= 10 {
      ReadsDigitsBack(n / 10);
      ReadDigitsAppend(Digits(n / 10), Digit(n % 10), 0);
    }
  }

  /** atoi undoes sprintf's %d. */
  lemma AtoiOfDigits(n: nat)
    ensures Atoi(Digits(n)) == n
  {
    ReadsDigitsBack(n);
  }

  /** A further decimal digit. */
  lemma DecimalDigits(n: nat, d: nat)
    requires d < 10
    ensures Digits(d) == ["0123456789"[d]]
    ensures n > 0 ==> Digits(10 * n + d) == Digits(n) + ["0123456789"[d]]
  {
  }

  lemma {:induction false} ReadDigitsStops(t: string, rest: string, sofar: nat)
    requires forall k :: 0 <= k < |t| ==> IsDigit(t[k])
    requires rest == "" || !IsDigit(rest[0])
    ensures ReadDigits(t + rest, sofar) == ReadDigits(t, sofar)
    decreases |t|
  {
    if t == [] {
      assert t + rest == rest;
    } else {
      assert (t + rest)[1..] == t[1..] + rest;
      ReadDigitsStops(t[1..], rest, 10 * sofar + DigitValue(t[0]));
    }
  }

  lemma {:induction false} SkipsFront(spaces: string, t: string, s: nat)
    requires s <= |spaces| && forall k :: 0 <= k < |spaces| ==> IsSpace(spaces[k])
    requires t != "" && !IsSpace(t[0])
    ensures SkipSpaces(spaces + t, s) == |spaces|
    decreases |spaces| - s
  {
    if s < |spaces| {
      SkipsFront(spaces, t, s + 1);
    }
  }

  /** atoi on any number: behind white space, with or without a sign, before anything but a digit. */
  lemma AtoiReads(spaces: string, sign: string, n: nat, rest: string)
    requires forall k :: 0 <= k < |spaces| ==> IsSpace(spaces[k])
    requires sign == "" || sign == "-" || sign == "+"
    requires rest == "" || !('0' <= rest[0] <= '9')
    ensures Atoi(spaces + (sign + (Digits(n) + rest))) == if sign == "-" then 0 - n else n
  {
    var number := Digits(n) + rest;
    var t := sign + number;
    SkipsFront(spaces, t, 0);
    assert TrimLeft(spaces + t) == t;
    ReadDigitsStops(Digits(n), rest, 0);
    ReadsDigitsBack(n);
    if sign == "" {
      assert t == number;
    } else {
      assert t[1..] == number;
    }
  }

  // ---------- overwriting ----------

  /** A buffer with NULs written at some positions. */
  function Blank(b: seq<char>, cuts: seq<nat>): (r: seq<char>)
    ensures |r| == |b|
    ensures forall k :: 0 <= k < |b| ==> r[k] == if k in cuts then NUL else b[k]
  {
    seq(|b|, k requires 0 <= k < |b| => if k in cuts then NUL else b[k])
  }

  /** Scans and skips see only what lies ahead of them. */
  lemma {:induction false} ScanAhead(a: seq<char>, b: seq<char>, s: nat, stops: set<char>)
    requires |a| == |b| && s <= |a| && forall k :: s <= k < |a| ==> a[k] == b[k]
    ensures Scan(a, s, stops) == Scan(b, s, stops)
    decreases |a| - s
  {
    if s < |a| {
      ScanAhead(a, b, s + 1, stops);
    }
  }

  lemma {:induction false} SkipAhead(a: seq<char>, b: seq<char>, s: nat, j: nat)
    requires |a| == |b| && s <= j < |a| && forall k :: s <= k < j ==> a[k] == b[k]
    requires !IsSpace(a[j]) && !IsSpace(b[j])
    ensures SkipSpaces(a, s) == SkipSpaces(b, s) <= j
    decreases j - s
  {
    if s < j {
      SkipAhead(a, b, s + 1, j);
    }
  }

  lemma {:induction false} SkipSame(a: seq<char>, b: seq<char>, s: nat)
    requires |a| == |b| && s <= |a| && forall k :: s <= k < |a| ==> a[k] == b[k]
    ensures SkipSpaces(a, s) == SkipSpaces(b, s)
    decreases |a| - s
  {
    if s < |a| {
      SkipSame(a, b, s + 1);
    }
  }

  /** White space is never one of the separators, so skipping it does not pass one. */
  lemma {:induction false} SkipThenScan(b: seq<char>, s: nat, stops: set<char>)
    requires s <= |b| && forall c :: c in stops ==> !IsSpace(c)
    ensures SkipSpaces(b, s) <= Scan(b, s, stops) == Scan(b, SkipSpaces(b, s), stops)
    decreases |b| - s
  {
    if s < |b| && IsSpace(b[s]) {
      SkipThenScan(b, s + 1, stops);
    }
  }

  /** Skipping inside a buffer is skipping in the piece of it up to a character that is not white space. */
  lemma {:induction false} SkipInPiece(b: seq<char>, s: nat, e: nat, i: nat)
    requires s + i <= e < |b| && !IsSpace(b[e])
    ensures SkipSpaces(b[s..e], i) == SkipSpaces(b, s + i) - s
    decreases e - s - i
  {
    if s + i < e && IsSpace(b[s + i]) {
      SkipInPiece(b, s, e, i + 1);
    }
  }
}
