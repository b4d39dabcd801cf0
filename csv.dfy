/** The catalog's CSV field splitter: a double quote toggles "inside quotes"
    and is dropped, a comma outside quotes ends the current field, every
    other character is kept. */
module Csv {

  /** The splitter's state after a prefix of the line: the finished fields,
      the field being built, and whether the scan is inside quotes. */
  datatype Scan = Scan(fields: seq<string>, current: string, quoted: bool)

  /** One character of the scan. */
  function Step(st: Scan, c: char): Scan {
    if c == '"' then st.(quoted := !st.quoted)
    else if c == ',' && !st.quoted then st.(fields := st.fields + [st.current], current := "")
    else st.(current := st.current + [c])
  }

  /** The state after scanning all of `s` from the empty state. */
  function ScanOf(s: string): Scan {
    if s == [] then Scan([], "", false) else Step(ScanOf(s[..|s| - 1]), s[|s| - 1])
  }

  /** The fields the splitter returns for `s`: the finished ones and the last one. */
  function Fields(s: string): seq<string> {
    var st := ScanOf(s);
    st.fields + [st.current]
  }

  /** Splits one CSV line into its fields. */
  method ParseCsvLine(line: string) returns (fields: seq<string>)
    ensures fields == Fields(line)
    ensures |fields| == SeparatorCount(line) + 1
    ensures forall i :: 0 <= i < |fields| ==> '"' !in fields[i]
    ensures Concat(fields) == Stripped(line)
  {
    fields := [];
    var quoted := false;
    var current := "";
    for i := 0 to |line|
      invariant Scan(fields, current, quoted) == ScanOf(line[..i])
    {
      var c := line[i];
      if c == '"' {
        quoted := !quoted;
      } else if c == ',' && !quoted {
        fields := fields + [current];
        current := "";
      } else {
        current := current + [c];
      }
      assert line[..i + 1][..i] == line[..i];
    }
    assert line[..|line|] == line;
    fields := fields + [current];
    FieldCount(line);
    FieldsHaveNoQuotes(line);
    FieldsConcat(line);
  }

  // ---- independent descriptions of the splitter's output ----

  /** The number of double quotes in `s`. */
  function QuoteCount(s: string): nat {
    if s == [] then 0 else QuoteCount(s[..|s| - 1]) + (if s[|s| - 1] == '"' then 1 else 0)
  }

  /** Position `i` of `s` is a separator: a comma preceded by an even number of quotes. */
  predicate IsSeparator(s: string, i: int)
    requires 0 <= i < |s|
  {
    s[i] == ',' && QuoteCount(s[..i]) % 2 == 0
  }

  /** The number of separator commas in `s`. */
  function SeparatorCount(s: string): nat {
    if s == [] then 0
    else SeparatorCount(s[..|s| - 1]) + (if IsSeparator(s, |s| - 1) then 1 else 0)
  }

  /** `s` with every quote and every separator comma removed. */
  function Stripped(s: string): string {
    if s == [] then []
    else Stripped(s[..|s| - 1]) + (if s[|s| - 1] == '"' || IsSeparator(s, |s| - 1) then [] else [s[|s| - 1]])
  }

  /** The fields written one after another. */
  function Concat(fs: seq<string>): string {
    if fs == [] then [] else Concat(fs[..|fs| - 1]) + fs[|fs| - 1]
  }

  /** Joins fields with commas: the writer whose output the splitter reads back. */
  function Join(fs: seq<string>): string
    requires |fs| >= 1
  {
    if |fs| == 1 then fs[0] else Join(fs[..|fs| - 1]) + [','] + fs[|fs| - 1]
  }

  lemma {:induction false} ConcatAppend(fs: seq<string>, f: string)
    ensures Concat(fs + [f]) == Concat(fs) + f
  {
    assert (fs + [f])[..|fs|] == fs;
  }

  /** What the scan keeps track of, after any prefix: its quote parity, how
      many separators it has seen, that no field holds a quote, and that the
      characters it kept are exactly those of the stripped prefix. */
  lemma {:induction false} ScanInvariant(s: string)
    ensures ScanOf(s).quoted <==> QuoteCount(s) % 2 == 1
    ensures |ScanOf(s).fields| == SeparatorCount(s)
    ensures forall i :: 0 <= i < |ScanOf(s).fields| ==> '"' !in ScanOf(s).fields[i]
    ensures '"' !in ScanOf(s).current
    ensures Concat(ScanOf(s).fields) + ScanOf(s).current == Stripped(s)
  {
    if s != [] {
      var init, c := s[..|s| - 1], s[|s| - 1];
      ScanInvariant(init);
      var st := ScanOf(init);
      assert s[..|s| - 1] == init;
      if c == ',' && !st.quoted {
        ConcatAppend(st.fields, st.current);
      }
    }
  }

  /** No field the splitter returns contains a double quote. */
  lemma FieldsHaveNoQuotes(s: string)
    ensures forall i :: 0 <= i < |Fields(s)| ==> '"' !in Fields(s)[i]
  {
    ScanInvariant(s);
  }

  /** There is one field more than there are commas outside quotes. */
  lemma FieldCount(s: string)
    ensures |Fields(s)| == SeparatorCount(s) + 1
  {
    ScanInvariant(s);
  }

  /** The fields, written one after another, are the line with all its
      quotes and all its separator commas removed. */
  lemma FieldsConcat(s: string)
    ensures Concat(Fields(s)) == Stripped(s)
  {
    ScanInvariant(s);
    ConcatAppend(ScanOf(s).fields, ScanOf(s).current);
  }

  /** Scanning characters that are neither quotes nor commas only extends the current field. */
  lemma {:induction false} ScanPlain(a: string, b: string)
    requires '"' !in b && ',' !in b
    ensures ScanOf(a + b) == ScanOf(a).(current := ScanOf(a).current + b)
    decreases |b|
  {
    if b == [] {
      assert a + b == a;
    } else {
      var b' := b[..|b| - 1];
      assert (a + b)[..|a + b| - 1] == a + b';
      assert b[|b| - 1] in b;
      ScanPlain(a, b');
      assert b' + [b[|b| - 1]] == b;
    }
  }

  lemma {:induction false} ScanJoin(fs: seq<string>)
    requires |fs| >= 1
    requires forall i :: 0 <= i < |fs| ==> '"' !in fs[i] && ',' !in fs[i]
    ensures ScanOf(Join(fs)) == Scan(fs[..|fs| - 1], fs[|fs| - 1], false)
  {
    if |fs| == 1 {
      ScanPlain([], fs[0]);
      assert [] + fs[0] == fs[0];
    } else {
      var init := fs[..|fs| - 1];
      ScanJoin(init);
      var j := Join(init);
      assert (j + [','])[..|j + [',']| - 1] == j;
      ScanPlain(j + [','], fs[|fs| - 1]);
      assert init[..|init| - 1] + [init[|init| - 1]] == init;
    }
  }

  /** Splitting fields that hold no quote and no comma, after joining them
      with commas, gives the fields back. */
  lemma SplitJoin(fs: seq<string>)
    requires |fs| >= 1
    requires forall i :: 0 <= i < |fs| ==> '"' !in fs[i] && ',' !in fs[i]
    ensures Fields(Join(fs)) == fs
  {
    var last := |fs| - 1;
    ScanJoin(fs);
    var st := ScanOf(Join(fs));
    assert st.fields == fs[..last] && st.current == fs[last];
    assert fs[..last] + [fs[last]] == fs;
  }
}
