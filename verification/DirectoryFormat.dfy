/**
 Directories as text: each entry is its name, a comma, its inode number and a colon. What parsing makes of
 a directory that was built by any sequence of creations.
 */
module DirectoryFormat {
  import opened Options

  datatype Entry = Entry(name: string, inum: nat)

  // ---- Inode numbers as text ------------------------------------------------------------------------------

  predicate IsDigit(c: char) {
    '0' <= c <= '9'
  }

  function Digit(d: nat): (c: char)
    requires d < 10
    ensures IsDigit(c)
  {
    '0' + d as char
  }

  /** filename: decimal, the high digit first. */
  function Digits(n: nat): (s: string)
    ensures |s| >= 1 && forall i | 0 <= i < |s| :: IsDigit(s[i])
  {
    if n < 10 then [Digit(n)] else Digits(n / 10) + [Digit(n % 10)]
  }

  /** How many characters of s are digits before the first that is not. */
  function Leading(s: string): (k: nat)
    ensures k <= |s| && forall i | 0 <= i < k :: IsDigit(s[i])
    ensures k < |s| ==> !IsDigit(s[k])
  {
    if s == "" || !IsDigit(s[0]) then 0 else 1 + Leading(s[1..])
  }

  function DigitValue(c: char): nat
    requires IsDigit(c)
  {
    c as int - '0' as int
  }

  function Value(s: string): nat
    requires forall i | 0 <= i < |s| :: IsDigit(s[i])
  {
    if s == "" then 0 else 10 * Value(s[..|s| - 1]) + DigitValue(s[|s| - 1])
  }

  /** n2i: the number at the front of the text, or 0. */
  function NumberOf(s: string): nat {
    Value(s[..Leading(s)])
  }

  lemma {:induction false} ValueOfDigits(n: nat)
    ensures Value(Digits(n)) == n
  {
    if n >= 10 {
      ValueOfDigits(n / 10);
      assert Digits(n)[..|Digits(n)| - 1] == Digits(n / 10);
    }
  }

  lemma NumberRoundTrip(n: nat)
    ensures NumberOf(Digits(n)) == n
  {
    var s := Digits(n);
    ValueOfDigits(n);
    assert Leading(s) == |s|;
    assert s[..|s|] == s;
  }

  function Pow10(k: nat): (p: nat)
    ensures p >= 1
  {
    if k == 0 then 1 else 10 * Pow10(k - 1)
  }

  lemma DivTen(n: nat, d: nat)
    requires d > 0
    ensures n / 10 / d == n / (10 * d)
  {
    var q, y := n / 10 / d, (n / 10) % d;
    assert n == 10 * (q * d + y) + n % 10;
    assert 10 * (q * d) == q * (10 * d);
    Quotient(n, 10 * d, q, 10 * y + n % 10);
  }

  lemma Quotient(n: nat, d: nat, q: nat, r: nat)
    requires r < d && n == q * d + r
    ensures n / d == q
  {
    var q' := n / d;
    assert q' <= q - 1 ==> q' * d <= (q - 1) * d;
    assert q' >= q + 1 ==> q' * d >= (q + 1) * d;
  }

  /** As many characters as there are digits: no leading zeros. */
  lemma {:induction false} DigitCount(n: nat)
    ensures n > 0 ==> Pow10(|Digits(n)| - 1) <= n < Pow10(|Digits(n)|)
    ensures n == 0 ==> |Digits(n)| == 1
  {
    if n < 10 {
      assert Pow10(0) == 1 && Pow10(1) == 10;
    } else {
      DigitCount(n / 10);
      assert |Digits(n)| == |Digits(n / 10)| + 1;
    }
  }

  /** Decimal: the k-th character from the right is the k-th digit. */
  lemma {:induction false} DigitsAreDecimal(n: nat, k: nat)
    requires k < |Digits(n)|
    ensures Digits(n)[|Digits(n)| - 1 - k] as int == '0' as int + n / Pow10(k) % 10
    decreases n
  {
    if n >= 10 && k > 0 {
      DigitsAreDecimal(n / 10, k - 1);
      DivTen(n, Pow10(k - 1));
    }
  }

  // ---- The text of a directory ------------------------------------------------------------------------------

  function Line(e: Entry): string {
    e.name + "," + Digits(e.inum) + ":"
  }

  function Format(es: seq<Entry>): string {
    if es == [] then "" else Format(es[..|es| - 1]) + Line(es[|es| - 1])
  }

  /** Where c is found from start on; the length if it is not. */
  function Find(buf: string, c: char, start: nat): (k: nat)
    requires start <= |buf|
    ensures start <= k <= |buf| && (k < |buf| ==> buf[k] == c)
    ensures forall i | start <= i < k :: buf[i] != c
    decreases |buf| - start
  {
    if start == |buf| || buf[start] == c then start else Find(buf, c, start + 1)
  }

  function CommaAt(buf: string, start: nat): (k: nat)
    requires start <= |buf|
    ensures start <= k <= |buf|
  {
    Find(buf, ',', start)
  }

  /** The colon after the comma; the length if either is not found. */
  function ColonAt(buf: string, start: nat): (k: nat)
    requires start <= |buf|
    ensures start <= k <= |buf|
  {
    var comma := CommaAt(buf, start);
    if comma == |buf| then |buf| else Find(buf, ':', comma + 1)
  }

  function EntryAt(buf: string, start: nat): (e: Entry)
    requires start <= |buf| && ColonAt(buf, start) < |buf|
    ensures !HasComma(e.name)
  {
    var comma, colon := CommaAt(buf, start), ColonAt(buf, start);
    Entry(buf[start..comma], NumberOf(buf[comma + 1..colon]))
  }

  /** From here on the text is a sequence of entries: the loop finds its commas and colons. */
  predicate Parses(buf: string, start: nat)
    decreases |buf| - start
  {
    start >= |buf| || (ColonAt(buf, start) < |buf| && Parses(buf, ColonAt(buf, start) + 1))
  }

  function Parse(buf: string, start: nat): seq<Entry>
    requires Parses(buf, start)
    decreases |buf| - start
  {
    if start >= |buf| then [] else [EntryAt(buf, start)] + Parse(buf, ColonAt(buf, start) + 1)
  }

  lemma ParseNext(buf: string, start: nat)
    requires start < |buf| && Parses(buf, start)
    ensures ColonAt(buf, start) < |buf| && Parses(buf, ColonAt(buf, start) + 1)
    ensures Parse(buf, start) != [] && Parse(buf, start)[0] == EntryAt(buf, start)
    ensures Parse(buf, start)[1..] == Parse(buf, ColonAt(buf, start) + 1)
  {
  }

  predicate HasComma(name: string) {
    ',' in name
  }

  predicate CommaFree(es: seq<Entry>) {
    forall i | 0 <= i < |es| :: !HasComma(es[i].name)
  }

  // ---- Every built directory can be parsed --------------------------------------------------------------------

  /** A text that ends in a comma, digits and a colon parses from every place before that comma. */
  lemma {:induction false} ClosedParses(front: string, n: nat, start: nat)
    requires start <= |front| || start == |front + "," + Digits(n) + ":"|
    ensures Parses(front + "," + Digits(n) + ":", start)
    decreases |front + "," + Digits(n) + ":"| - start
  {
    var buf := front + "," + Digits(n) + ":";
    if start <= |front| {
      assert buf[|front|] == ',' && buf[|buf| - 1] == ':';
      assert CommaAt(buf, start) <= |front|;
      var colon := ColonAt(buf, start);
      assert colon < |buf|;
      assert colon < |front| || colon == |buf| - 1 by {
        forall i | |front| < i < |buf| - 1 ensures buf[i] != ':' {
          assert buf[i] == Digits(n)[i - |front| - 1];
          assert IsDigit(Digits(n)[i - |front| - 1]);
        }
      }
      ClosedParses(front, n, colon + 1);
    }
  }

  lemma LineParses(buf: string, e: Entry)
    ensures Parses(buf + Line(e), 0)
  {
    assert buf + Line(e) == (buf + e.name) + "," + Digits(e.inum) + ":";
    ClosedParses(buf + e.name, e.inum, 0);
  }

  lemma FormatParses(es: seq<Entry>)
    ensures Parses(Format(es), 0)
  {
    if es != [] {
      LineParses(Format(es[..|es| - 1]), es[|es| - 1]);
    }
  }

  // ---- Parsing gives back what was written, exactly for names without a comma ---------------------------------------

  lemma {:induction false} FormatCons(e: Entry, es: seq<Entry>)
    ensures Format([e] + es) == Line(e) + Format(es)
  {
    if es == [] {
      assert [e] + es == [e];
      assert Format([e]) == Format([]) + Line(e);
    } else {
      var front, last := es[..|es| - 1], es[|es| - 1];
      FormatCons(e, front);
      assert ([e] + es)[..|es|] == [e] + front;
      assert Line(e) + (Format(front) + Line(last)) == (Line(e) + Format(front)) + Line(last);
    }
  }

  /** The characters of a line inside a text. */
  lemma LineChars(before: string, e: Entry, after: string)
    ensures var buf, comma := before + Line(e) + after, |before| + |e.name|;
            && |buf| == |before| + |Line(e)| + |after| && |Line(e)| == |e.name| + |Digits(e.inum)| + 2
            && buf[|before|..comma] == e.name && buf[comma] == ','
            && buf[comma + 1..comma + 1 + |Digits(e.inum)|] == Digits(e.inum) && buf[comma + 1 + |Digits(e.inum)|] == ':'
  {
    var line, digits := Line(e), Digits(e.inum);
    var buf, comma := before + line + after, |before| + |e.name|;
    assert buf[|before|..|before| + |line|] == line;
    assert line[..|e.name|] == e.name && line[|e.name| + 1..|e.name| + 1 + |digits|] == digits;
    assert buf[|before|..comma] == buf[|before|..|before| + |line|][..|e.name|];
    assert buf[comma + 1..comma + 1 + |digits|] == buf[|before|..|before| + |line|][|e.name| + 1..|e.name| + 1 + |digits|];
  }

  lemma FindIs(buf: string, c: char, start: nat, k: nat)
    requires start <= k < |buf| && buf[k] == c && c !in buf[start..k]
    ensures Find(buf, c, start) == k
  {
    forall i | start <= i < k ensures buf[i] != c {
      assert buf[i] in buf[start..k];
    }
  }

  lemma NoColon(n: nat)
    ensures ':' !in Digits(n)
  {
  }

  /** Where the comma and the colon of a line are found. */
  lemma CommaFound(before: string, e: Entry, after: string)
    requires !HasComma(e.name)
    ensures var buf := before + Line(e) + after; CommaAt(buf, |before|) == |before| + |e.name| < |buf|
  {
    LineChars(before, e, after);
    FindIs(before + Line(e) + after, ',', |before|, |before| + |e.name|);
  }

  lemma ColonFound(before: string, e: Entry, after: string)
    requires !HasComma(e.name)
    ensures var buf := before + Line(e) + after; ColonAt(buf, |before|) == |before| + |Line(e)| - 1 < |buf|
  {
    LineChars(before, e, after);
    CommaFound(before, e, after);
    NoColon(e.inum);
    FindIs(before + Line(e) + after, ':', |before| + |e.name| + 1, |before| + |Line(e)| - 1);
  }

  lemma LineFound(before: string, e: Entry, after: string)
    requires !HasComma(e.name)
    ensures var buf := before + Line(e) + after;
            var colon := |before| + |Line(e)| - 1;
            ColonAt(buf, |before|) == colon < |buf| && EntryAt(buf, |before|) == e
  {
    LineChars(before, e, after);
    CommaFound(before, e, after);
    ColonFound(before, e, after);
    NumberRoundTrip(e.inum);
  }

  lemma {:induction false} ParseFrom(buf: string, start: nat, es: seq<Entry>)
    requires CommaFree(es) && start <= |buf| && buf[start..] == Format(es)
    ensures Parses(buf, start) && Parse(buf, start) == es
    decreases |es|
  {
    if es != [] {
      var e, rest := es[0], es[1..];
      assert es == [e] + rest;
      FormatCons(e, rest);
      assert !HasComma(es[0].name);
      var next := start + |Line(e)|;
      assert buf[next..] == buf[start..][|Line(e)|..] == Format(rest);
      ParseFrom(buf, next, rest);
      LineAt(buf, start, e, Format(rest));
      ParseStep(buf, start, next, e, rest);
    }
  }

  lemma ParseStep(buf: string, start: nat, next: nat, e: Entry, rest: seq<Entry>)
    requires start < next <= |buf| && ColonAt(buf, start) == next - 1 && EntryAt(buf, start) == e
    requires Parses(buf, next) && Parse(buf, next) == rest
    ensures Parses(buf, start) && Parse(buf, start) == [e] + rest
  {
  }

  lemma LineAt(buf: string, start: nat, e: Entry, after: string)
    requires start <= |buf| && buf[start..] == Line(e) + after && !HasComma(e.name)
    ensures start < |buf| && ColonAt(buf, start) == start + |Line(e)| - 1 < |buf| && EntryAt(buf, start) == e
  {
    assert buf == buf[..start] + Line(e) + after;
    LineFound(buf[..start], e, after);
  }

  /** A parsed name never has a comma. */
  lemma {:induction false} ParsedNames(buf: string, start: nat)
    requires Parses(buf, start)
    ensures CommaFree(Parse(buf, start))
    decreases |buf| - start
  {
    if start < |buf| {
      ParsedNames(buf, ColonAt(buf, start) + 1);
    }
  }

  /** A directory is read as it was written if and only if no name in it has a comma. */
  lemma ReadsExactly(es: seq<Entry>)
    ensures Parses(Format(es), 0)
    ensures Parse(Format(es), 0) == es <==> CommaFree(es)
  {
    FormatParses(es);
    ParsedNames(Format(es), 0);
    if CommaFree(es) {
      ParseFrom(Format(es), 0, es);
    }
  }

  // ---- Creations -----------------------------------------------------------------------------------------------------

  predicate Named(es: seq<Entry>, name: string) {
    exists i :: 0 <= i < |es| && es[i].name == name
  }

  /** The first entry of that name. */
  function Lookup(es: seq<Entry>, name: string): Option<nat> {
    if es == [] then None
    else if es[0].name == name then Some(es[0].inum)
    else Lookup(es[1..], name)
  }

  /** One creation: refused if the name is found, written at the end otherwise. */
  function Create(buf: string, e: Entry): string
    requires Parses(buf, 0)
  {
    if Lookup(Parse(buf, 0), e.name).Some? then buf else buf + Line(e)
  }

  /** What a directory should be: the first entry that was created for each name. */
  function Kept(reqs: seq<Entry>): seq<Entry> {
    if reqs == [] then []
    else
      var es, e := Kept(reqs[..|reqs| - 1]), reqs[|reqs| - 1];
      if Lookup(es, e.name).Some? then es else es + [e]
  }

  function Book(reqs: seq<Entry>): map<string, nat> {
    if reqs == [] then map[]
    else
      var m, e := Book(reqs[..|reqs| - 1]), reqs[|reqs| - 1];
      if e.name in m then m else m[e.name := e.inum]
  }

  /** The text after some creations, whatever their names. */
  function Text(reqs: seq<Entry>): (buf: string)
    ensures Parses(buf, 0)
  {
    if reqs == [] then ""
    else
      var before, e := Text(reqs[..|reqs| - 1]), reqs[|reqs| - 1];
      LineParses(before, e);
      Create(before, e)
  }

  lemma {:induction false} LookupAppend(es: seq<Entry>, e: Entry, name: string)
    ensures Lookup(es + [e], name) == if Lookup(es, name).Some? then Lookup(es, name) else if e.name == name then Some(e.inum) else None
  {
    if es == [] {
      assert es + [e] == [e];
    } else {
      LookupAppend(es[1..], e, name);
      assert (es + [e])[1..] == es[1..] + [e];
    }
  }

  lemma {:induction false} LookupNamed(es: seq<Entry>, name: string)
    ensures Lookup(es, name).Some? <==> Named(es, name)
  {
    if es != [] {
      LookupNamed(es[1..], name);
      if Named(es[1..], name) {
        var i :| 0 <= i < |es[1..]| && es[1..][i].name == name;
        assert es[i + 1].name == name;
      }
      if Named(es, name) && es[0].name != name {
        var i :| 0 <= i < |es| && es[i].name == name;
        assert es[1..][i - 1].name == name;
      }
    }
  }

  predicate DistinctNames(es: seq<Entry>) {
    forall i, j | 0 <= i < j < |es| :: es[i].name != es[j].name
  }

  lemma {:induction false} KeptIsBook(reqs: seq<Entry>, name: string)
    ensures Lookup(Kept(reqs), name) == if name in Book(reqs) then Some(Book(reqs)[name]) else None
  {
    if reqs != [] {
      var front, e := reqs[..|reqs| - 1], reqs[|reqs| - 1];
      KeptIsBook(front, name);
      KeptIsBook(front, e.name);
      LookupAppend(Kept(front), e, name);
    }
  }

  lemma {:induction false} KeptIsDistinct(reqs: seq<Entry>)
    ensures DistinctNames(Kept(reqs)) && (CommaFree(reqs) ==> CommaFree(Kept(reqs)))
  {
    if reqs != [] {
      var front, e := reqs[..|reqs| - 1], reqs[|reqs| - 1];
      KeptIsDistinct(front);
      LookupNamed(Kept(front), e.name);
    }
  }

  lemma {:induction false} TextIsFormat(reqs: seq<Entry>)
    requires CommaFree(reqs)
    ensures Text(reqs) == Format(Kept(reqs))
  {
    if reqs != [] {
      var front, e := reqs[..|reqs| - 1], reqs[|reqs| - 1];
      TextIsFormat(front);
      KeptIsDistinct(front);
      ReadsExactly(Kept(front));
      var es := Kept(front) + [e];
      assert es[..|es| - 1] == Kept(front);
    }
  }

  /**
   After any creations with comma-free names, the text parses as the created entries in order, no name
   occurs twice, and looking a name up agrees with a plain map.
   */
  lemma DirectoryIsMap(reqs: seq<Entry>, name: string)
    requires CommaFree(reqs)
    ensures Parse(Text(reqs), 0) == Kept(reqs) && DistinctNames(Kept(reqs))
    ensures Lookup(Parse(Text(reqs), 0), name) == if name in Book(reqs) then Some(Book(reqs)[name]) else None
  {
    TextIsFormat(reqs);
    KeptIsDistinct(reqs);
    ReadsExactly(Kept(reqs));
    KeptIsBook(reqs, name);
  }

  /** A name with a comma is never found, so it can be created again and again. */
  lemma CommaIsLost(buf: string, e: Entry)
    requires Parses(buf, 0) && HasComma(e.name)
    ensures Lookup(Parse(buf, 0), e.name) == None && Create(buf, e) == buf + Line(e)
  {
    ParsedNames(buf, 0);
    LookupNamed(Parse(buf, 0), e.name);
  }
}
