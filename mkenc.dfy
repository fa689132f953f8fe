/** The string logic of the opcode-table generator: getop splits an
    instruction's mnemonic-and-operands column into the opcode and four
    operands, emit writes one group of rows with the same opcode (unless all of
    them are pseudo-instructions) together with its index range, and the main
    loop groups consecutive rows by opcode. Downloading the CSV, parsing it,
    and formatting the Go literals are left out: a table line is modelled as
    the group of rows it renders. */
module Mkenc {
  import opened Go

  // ---------------------------------------------------------------------
  // strings.FieldsFunc(m, func(c) { c == ' ' || c == ',' })

  predicate IsSep(ch: char)
  {
    ch == ' ' || ch == ','
  }

  /** A field: a non-empty run of non-separator characters. */
  predicate IsField(f: string)
  {
    |f| > 0 && forall i :: 0 <= i < |f| ==> !IsSep(f[i])
  }

  /** The characters of `s` that are not separators, in order. */
  function Strip(s: string): string
  {
    if s == [] then [] else (if IsSep(s[0]) then [] else [s[0]]) + Strip(s[1..])
  }

  function Concat(fs: seq<string>): string
  {
    if fs == [] then [] else fs[0] + Concat(fs[1..])
  }

  /** The fields of `cur + s`, where `cur` is the part of a field gathered so
      far: every one is a field, and together they hold exactly the
      non-separator characters. */
  function Split(s: string, cur: string): (r: seq<string>)
    requires forall i :: 0 <= i < |cur| ==> !IsSep(cur[i])
    ensures forall i :: 0 <= i < |r| ==> IsField(r[i])
    ensures Concat(r) == cur + Strip(s)
    decreases |s|
  {
    if s == [] then
      (if cur == [] then [] else [cur])
    else if IsSep(s[0]) then
      var rest := Split(s[1..], []);
      assert Strip(s) == Strip(s[1..]);
      if cur == [] then
        assert cur + Strip(s) == Strip(s[1..]);
        rest
      else
        var r := [cur] + rest;
        assert r[0] == cur && r[1..] == rest;
        assert forall i :: 0 < i < |r| ==> r[i] == rest[i - 1];
        r
    else
      assert Strip(s) == [s[0]] + Strip(s[1..]);
      assert cur + [s[0]] + Strip(s[1..]) == cur + Strip(s);
      Split(s[1..], cur + [s[0]])
  }

  function Fields(s: string): seq<string>
  {
    Split(s, [])
  }

  /** Only separator characters (possibly none). */
  predicate AllSep(s: string)
  {
    forall i :: 0 <= i < |s| ==> IsSep(s[i])
  }

  /** A non-empty run of separator characters. */
  predicate IsSepRun(sep: string)
  {
    |sep| > 0 && AllSep(sep)
  }

  /** Fields with `seps[i]` written between `fs[i]` and `fs[i + 1]`. */
  function Interleave(fs: seq<string>, seps: seq<string>): string
    requires |fs| <= |seps| + 1
  {
    if fs == [] then []
    else if |fs| == 1 then fs[0]
    else fs[0] + seps[0] + Interleave(fs[1..], seps[1..])
  }

  /** Splitting undoes any spacing: fields written with a run of separators
      between neighbours, and any separators before the first and after the
      last, split back into exactly those fields. */
  lemma {:induction false} FieldsOfInterleave(lead: string, fs: seq<string>, seps: seq<string>, trail: string)
    requires forall i :: 0 <= i < |fs| ==> IsField(fs[i])
    requires |fs| <= |seps| + 1 && forall i :: 0 <= i < |seps| ==> IsSepRun(seps[i])
    requires AllSep(lead) && AllSep(trail)
    ensures Fields(lead + Interleave(fs, seps) + trail) == fs
  {
    assert lead + Interleave(fs, seps) + trail == lead + (Interleave(fs, seps) + trail);
    SplitSeparators(lead, Interleave(fs, seps) + trail);
    SplitInterleave(fs, seps, trail);
  }

  lemma {:induction false} SplitInterleave(fs: seq<string>, seps: seq<string>, trail: string)
    requires forall i :: 0 <= i < |fs| ==> IsField(fs[i])
    requires |fs| <= |seps| + 1 && forall i :: 0 <= i < |seps| ==> IsSepRun(seps[i])
    requires AllSep(trail)
    ensures Split(Interleave(fs, seps) + trail, []) == fs
    decreases |fs|
  {
    if fs == [] {
      assert Interleave(fs, seps) + trail == trail + [];
      SplitSeparators(trail, []);
    } else if |fs| == 1 {
      SplitWord(fs[0], trail, []);
      assert [] + fs[0] == fs[0];
      SplitTrail(trail, fs[0]);
      assert [fs[0]] == fs;
    } else {
      var rest := Interleave(fs[1..], seps[1..]) + trail;
      var sep := seps[0];
      assert Interleave(fs, seps) + trail == fs[0] + (sep + rest);
      SplitWord(fs[0], sep + rest, []);
      assert [] + fs[0] == fs[0];
      assert (sep + rest)[0] == sep[0] && (sep + rest)[1..] == sep[1..] + rest;
      assert Split(sep + rest, fs[0]) == [fs[0]] + Split(sep[1..] + rest, []);
      SplitSeparators(sep[1..], rest);
      SplitInterleave(fs[1..], seps[1..], trail);
      assert [fs[0]] + fs[1..] == fs;
    }
  }

  /** Separators after a field end it, and nothing follows. */
  lemma {:induction false} SplitTrail(trail: string, cur: string)
    requires AllSep(trail)
    requires IsField(cur)
    ensures Split(trail, cur) == [cur]
  {
    if trail != [] {
      SplitSeparators(trail[1..], []);
      assert trail[1..] + [] == trail[1..];
      assert [cur] + [] == [cur];
    }
  }

  /** Every string is its fields written with separators between and around
      them, so together with `FieldsOfInterleave` this determines `Fields`
      on every input. */
  lemma FieldsShape(s: string) returns (lead: string, seps: seq<string>, trail: string)
    ensures |Fields(s)| <= |seps| + 1 && forall i :: 0 <= i < |seps| ==> IsSepRun(seps[i])
    ensures AllSep(lead) && AllSep(trail)
    ensures s == lead + Interleave(Fields(s), seps) + trail
  {
    lead, seps, trail := SplitShape(s, []);
    assert [] + s == s;
  }

  lemma {:induction false} SplitShape(s: string, cur: string) returns (lead: string, seps: seq<string>, trail: string)
    requires forall i :: 0 <= i < |cur| ==> !IsSep(cur[i])
    ensures |Split(s, cur)| <= |seps| + 1 && forall i :: 0 <= i < |seps| ==> IsSepRun(seps[i])
    ensures AllSep(lead) && AllSep(trail)
    ensures cur != [] ==> lead == []
    ensures cur + s == lead + Interleave(Split(s, cur), seps) + trail
    decreases |s|
  {
    if s == [] {
      lead, seps, trail := [], [], [];
      assert cur + s == cur;
    } else if IsSep(s[0]) {
      var l, ss, t := SplitShape(s[1..], []);
      assert [] + s[1..] == s[1..];
      lead, seps, trail := SepShape(s, cur, l, ss, t);
    } else {
      lead, seps, trail := SplitShape(s[1..], cur + [s[0]]);
      assert cur + [s[0]] + s[1..] == cur + s;
    }
  }

  /** The step of `SplitShape` at a separator, from the shape of the rest. */
  lemma SepShape(s: string, cur: string, l: string, ss: seq<string>, t: string)
      returns (lead: string, seps: seq<string>, trail: string)
    requires s != [] && IsSep(s[0])
    requires forall i :: 0 <= i < |cur| ==> !IsSep(cur[i])
    requires |Split(s[1..], [])| <= |ss| + 1 && forall i :: 0 <= i < |ss| ==> IsSepRun(ss[i])
    requires AllSep(l) && AllSep(t)
    requires s[1..] == l + Interleave(Split(s[1..], []), ss) + t
    ensures |Split(s, cur)| <= |seps| + 1 && forall i :: 0 <= i < |seps| ==> IsSepRun(seps[i])
    ensures AllSep(lead) && AllSep(trail)
    ensures cur != [] ==> lead == []
    ensures cur + s == lead + Interleave(Split(s, cur), seps) + trail
  {
    var rest := Split(s[1..], []);
    var mid := Interleave(rest, ss);
    assert s == [s[0]] + (l + mid + t);
    if cur == [] {
      lead, seps, trail := [s[0]] + l, ss, t;
      assert Split(s, cur) == rest;
      assert cur + s == lead + mid + trail;
    } else if rest == [] {
      assert Split(s, cur) == [cur] && mid == [];
      lead, seps, trail := SepEnds(s[0], cur, l, t);
    } else {
      assert Split(s, cur) == [cur] + rest;
      lead, seps, trail := SepBetween(s[0], cur, l, rest, ss, t);
    }
  }

  /** Separators after the last field go to the trailing run. */
  lemma SepEnds(c: char, cur: string, l: string, t: string)
      returns (lead: string, seps: seq<string>, trail: string)
    requires IsSep(c) && AllSep(l) && AllSep(t)
    ensures lead == [] && seps == [] && AllSep(trail)
    ensures cur + ([c] + (l + [] + t)) == lead + Interleave([cur], seps) + trail
  {
    lead, seps, trail := [], [], [c] + l + t;
    assert [c] + l + t == [c] + (l + [] + t);
  }

  /** Separators between two fields become the run between them. */
  lemma SepBetween(c: char, cur: string, l: string, rest: seq<string>, ss: seq<string>, t: string)
      returns (lead: string, seps: seq<string>, trail: string)
    requires IsSep(c) && AllSep(l) && AllSep(t) && rest != [] && |rest| <= |ss| + 1
    requires forall i :: 0 <= i < |ss| ==> IsSepRun(ss[i])
    ensures |[cur] + rest| <= |seps| + 1 && forall i :: 0 <= i < |seps| ==> IsSepRun(seps[i])
    ensures lead == [] && AllSep(trail)
    ensures cur + ([c] + (l + Interleave(rest, ss) + t)) == lead + Interleave([cur] + rest, seps) + trail
  {
    lead, seps, trail := [], [[c] + l] + ss, t;
    var r := [cur] + rest;
    assert r[1..] == rest && seps[1..] == ss && seps[0] == [c] + l;
    assert Interleave(r, seps) == cur + ([c] + l) + Interleave(rest, ss);
  }

  /** Characters of a field are gathered into the current field. */
  lemma {:induction false} SplitWord(w: string, rest: string, cur: string)
    requires forall i :: 0 <= i < |w| ==> !IsSep(w[i])
    requires forall i :: 0 <= i < |cur| ==> !IsSep(cur[i])
    ensures Split(w + rest, cur) == Split(rest, cur + w)
    decreases |w|
  {
    if w == [] {
      assert w + rest == rest && cur + w == cur;
    } else {
      assert (w + rest)[0] == w[0] && (w + rest)[1..] == w[1..] + rest;
      SplitWord(w[1..], rest, cur + [w[0]]);
      assert cur + [w[0]] + w[1..] == cur + w;
    }
  }

  /** Separators between fields produce nothing. */
  lemma {:induction false} SplitSeparators(seps: string, rest: string)
    requires AllSep(seps)
    ensures Split(seps + rest, []) == Split(rest, [])
    decreases |seps|
  {
    if seps == [] {
      assert seps + rest == rest;
    } else {
      assert (seps + rest)[0] == seps[0] && (seps + rest)[1..] == seps[1..] + rest;
      SplitSeparators(seps[1..], rest);
    }
  }

  // ---------------------------------------------------------------------
  // getop

  /** strings.Replace(s, ".", "", -1). */
  function RemoveDots(s: string): (r: string)
    ensures forall i :: 0 <= i < |r| ==> r[i] != '.'
    ensures forall ch :: ch in r ==> ch in s
  {
    if s == [] then []
    else
      var rest := RemoveDots(s[1..]);
      assert forall ch :: ch in s[1..] ==> ch in s;
      if s[0] == '.' then rest else [s[0]] + rest
  }

  /** A string without dots is left as it is. */
  lemma {:induction false} RemoveDotsClean(s: string)
    requires forall i :: 0 <= i < |s| ==> s[i] != '.'
    ensures RemoveDots(s) == s
  {
    if s != [] {
      RemoveDotsClean(s[1..]);
      assert s == [s[0]] + s[1..];
    }
  }

  /** Removing dots works piece by piece. With `RemoveDotsCons` this fixes
      the result as the input's other characters in their order. */
  lemma {:induction false} RemoveDotsAppend(a: string, b: string)
    ensures RemoveDots(a + b) == RemoveDots(a) + RemoveDots(b)
    decreases |a|
  {
    if a == [] {
      assert a + b == b && RemoveDots(a) == [];
      assert [] + RemoveDots(b) == RemoveDots(b);
    } else {
      var c, t := a[0], a[1..];
      var head: string := if c == '.' then "" else [c];
      assert a == [c] + t && a + b == [c] + (t + b);
      RemoveDotsCons(c, t);
      RemoveDotsCons(c, t + b);
      RemoveDotsAppend(t, b);
      assert RemoveDots(a + b) == head + (RemoveDots(t) + RemoveDots(b));
      assert head + (RemoveDots(t) + RemoveDots(b)) == (head + RemoveDots(t)) + RemoveDots(b);
    }
  }

  /** A leading character is dropped exactly when it is a dot. */
  lemma RemoveDotsCons(c: char, t: string)
    ensures RemoveDots([c] + t) == (if c == '.' then "" else [c]) + RemoveDots(t)
  {
    assert ([c] + t)[0] == c && ([c] + t)[1..] == t;
  }

  /** Every character other than a dot is kept, as often as it occurs. */
  lemma {:induction false} RemoveDotsCounts(s: string)
    ensures multiset(RemoveDots(s)) == multiset(s)['.' := 0]
  {
    if s != [] {
      RemoveDotsCounts(s[1..]);
      assert s == [s[0]] + s[1..];
    }
  }

  /** strings.HasPrefix. */
  predicate HasPrefix(s: string, prefix: string)
  {
    |prefix| <= |s| && s[..|prefix|] == prefix
  }

  /** `s` has the prefix exactly when it is the prefix followed by something. */
  lemma PrefixWitness(s: string, prefix: string)
    ensures HasPrefix(s, prefix) <==> exists t :: s == prefix + t
  {
    if HasPrefix(s, prefix) {
      assert s == prefix + s[|prefix|..];
    }
  }

  /** The opcode and up to four operands of one instruction form. */
  datatype Mnemonic = Mnemonic(op: string, a1: string, a2: string, a3: string, a4: string)

  function Parts(mn: Mnemonic): seq<string>
  {
    [mn.op, mn.a1, mn.a2, mn.a3, mn.a4]
  }

  /** getop: panics with `m` unless `m` has one to five fields. The opcode is
      the first field and the operands are the following fields, with two
      fix-ups for known errors in the data: every '.' is removed from the
      third operand, and a fifth field starting with '/' is appended to the
      third operand instead of being the fourth. Missing operands are "". */
  function GetOp(m: string): (r: Outcome<Mnemonic, string>)
    ensures r.Panicked? <==> |Fields(m)| == 0 || |Fields(m)| > 5
    ensures r.Panicked? ==> r.reason == m
    ensures r.Returned? ==> r.value.op == Fields(m)[0] && IsField(r.value.op)
  {
    var f := Fields(m);
    var k := |f|;
    if k == 0 || k > 5 then Panicked(m)
    else
      var a4 := if k == 5 then f[4] else "";
      var a3 := if k >= 4 then RemoveDots(f[3]) else "";
      var merge := k >= 4 && HasPrefix(a4, "/");
      var a3 := if merge then a3 + a4 else a3;
      var a4 := if merge then "" else a4;
      var a2 := if k >= 3 then f[2] else "";
      var a1 := if k >= 2 then f[1] else "";
      Returned(Mnemonic(f[0], a1, a2, a3, a4))
  }

  /** Without anything to fix up, the five parts are the fields followed by
      empty operands. */
  lemma GetOpPlain(m: string)
    requires 1 <= |Fields(m)| <= 5
    requires |Fields(m)| >= 4 ==> forall i :: 0 <= i < |Fields(m)[3]| ==> Fields(m)[3][i] != '.'
    requires |Fields(m)| == 5 ==> !HasPrefix(Fields(m)[4], "/")
    ensures Parts(GetOp(m).value) == Fields(m) + seq(5 - |Fields(m)|, _ => "")
  {
    if |Fields(m)| >= 4 {
      RemoveDotsClean(Fields(m)[3]);
    }
  }

  /** The two fix-ups: with four or more fields the opcode and the first
      two operands are the first three fields, the third operand is the
      fourth field without its dots, followed by the fifth field when that
      starts with '/', in which case there is no fourth operand. */
  lemma GetOpFixups(m: string)
    requires 4 <= |Fields(m)| <= 5
    ensures var f, mn := Fields(m), GetOp(m).value;
      mn.op == f[0] && mn.a1 == f[1] && mn.a2 == f[2]
    ensures var f, mn := Fields(m), GetOp(m).value;
      if |f| == 5 && HasPrefix(f[4], "/") then mn.a3 == RemoveDots(f[3]) + f[4] && mn.a4 == ""
      else mn.a3 == RemoveDots(f[3]) && mn.a4 == (if |f| == 5 then f[4] else "")
  {
  }

  function NonEmpty(ss: seq<string>): (r: seq<string>)
    ensures (forall i :: 0 <= i < |ss| ==> IsField(ss[i]) || ss[i] == "") ==>
      forall i :: 0 <= i < |r| ==> IsField(r[i])
  {
    if ss == [] then [] else (if ss[0] == "" then [] else [ss[0]]) + NonEmpty(ss[1..])
  }

  /** An instruction form written back out: its non-empty parts, separated
      by single spaces. */
  function Render(mn: Mnemonic): string
  {
    var ps := NonEmpty(Parts(mn));
    Interleave(ps, seq(|ps|, _ => " "))
  }

  /** When no fix-up applies, splitting the rendered result of getop gives
      back the fields getop was given. */
  lemma GetOpRoundTrip(m: string)
    requires 1 <= |Fields(m)| <= 5
    requires |Fields(m)| >= 4 ==> forall i :: 0 <= i < |Fields(m)[3]| ==> Fields(m)[3][i] != '.'
    requires |Fields(m)| == 5 ==> !HasPrefix(Fields(m)[4], "/")
    ensures Fields(Render(GetOp(m).value)) == Fields(m)
  {
    var f, mn := Fields(m), GetOp(m).value;
    GetOpPlain(m);
    NonEmptyFields(f, 5 - |f|);
    assert NonEmpty(Parts(mn)) == f;
    var seps := seq(|f|, _ => " ");
    assert Render(mn) == Interleave(f, seps);
    assert forall i :: 0 <= i < |seps| ==> IsSepRun(seps[i]);
    FieldsOfInterleave([], f, seps, []);
    assert [] + Interleave(f, seps) + [] == Interleave(f, seps);
  }

  lemma {:induction false} NonEmptyFields(f: seq<string>, k: nat)
    requires forall i :: 0 <= i < |f| ==> IsField(f[i])
    ensures NonEmpty(f + seq(k, _ => "")) == f
  {
    if f == [] {
      assert f + seq(k, _ => "") == seq(k, _ => "");
      Blanks(k);
    } else {
      assert (f + seq(k, _ => ""))[1..] == f[1..] + seq(k, _ => "");
      NonEmptyFields(f[1..], k);
    }
  }

  lemma {:induction false} Blanks(k: nat)
    ensures NonEmpty(seq(k, _ => "")) == []
  {
    if k > 0 {
      assert seq(k, _ => "")[1..] == seq(k - 1, _ => "");
      Blanks(k - 1);
    }
  }

  // ---------------------------------------------------------------------
  // emit

  /** strings.Contains(s, sub). */
  function Contains(s: string, sub: string): (b: bool)
    ensures b <==> exists i :: 0 <= i <= |s| - |sub| && s[i..][..|sub|] == sub
    decreases |s|
  {
    if |s| < |sub| then false
    else if s[..|sub|] == sub then
      assert s[0..][..|sub|] == sub;
      true
    else
      ShiftMatch(s, sub);
      Contains(s[1..], sub)
  }

  /** A match in the tail of `s` is a match in `s` at one place later. */
  lemma ShiftMatch(s: string, sub: string)
    requires |s| > 0
    ensures (exists i :: 0 <= i <= |s| - 1 - |sub| && s[1..][i..][..|sub|] == sub) <==>
      (exists i :: 1 <= i <= |s| - |sub| && s[i..][..|sub|] == sub)
  {
    if i :| 0 <= i <= |s| - 1 - |sub| && s[1..][i..][..|sub|] == sub {
      assert s[1..][i..] == s[i + 1..];
    }
    if i :| 1 <= i <= |s| - |sub| && s[i..][..|sub|] == sub {
      assert s[1..][i - 1..] == s[i..];
    }
  }

  /** One row of the table: opcode, four operands, and the record's other
      five columns; the last is the instruction's tags. */
  type Row = seq<string>

  /** Every row has the five mnemonic parts. */
  ghost predicate Rows(l: seq<Row>)
  {
    forall i :: 0 <= i < |l| ==> |l[i]| >= 5
  }

  predicate IsPseudo(row: Row)
    requires |row| > 0
  {
    Contains(row[|row| - 1], "pseudo")
  }

  /** A group is written out when at least one row is not a pseudo-op. */
  ghost predicate Real(l: seq<Row>)
  {
    exists i :: 0 <= i < |l| && |l[i]| > 0 && !IsPseudo(l[i])
  }

  /** The operands a1..a4 of the rows of a group. */
  ghost function ArgsIn(l: seq<Row>): set<string>
  {
    if l == [] then {}
    else
      var row := l[|l| - 1];
      ArgsIn(l[..|l| - 1]) + (if |row| >= 5 then {row[1], row[2], row[3], row[4]} else {})
  }

  ghost function Elems(s: seq<string>): set<string>
  {
    set k | 0 <= k < |s| :: s[k]
  }

  lemma ElemsAppend(a: seq<string>, b: seq<string>)
    ensures Elems(a + b) == Elems(a) + Elems(b)
  {
    forall x | x in Elems(a + b) ensures x in Elems(a) + Elems(b) {
      var k :| 0 <= k < |a + b| && (a + b)[k] == x;
      if k >= |a| {
        assert b[k - |a|] == x;
      }
    }
    forall x | x in Elems(a) + Elems(b) ensures x in Elems(a + b) {
      if x in Elems(a) {
        var k :| 0 <= k < |a| && a[k] == x;
        assert (a + b)[k] == x;
      } else {
        var k :| 0 <= k < |b| && b[k] == x;
        assert (a + b)[|a| + k] == x;
      }
    }
  }

  // ---------------------------------------------------------------------
  // What the main loop computes, stated on whole inputs

  /** The row the loop appends for a record: the five parts of the first
      column followed by the other five columns. */
  function MakeRow(mn: Mnemonic, rec: seq<string>): (row: Row)
    requires |rec| == 6
    ensures |row| == 10 && row[..5] == Parts(mn) && row[0] == mn.op && row[5..] == rec[1..]
  {
    Parts(mn) + rec[1..]
  }

  /** The rows of a sequence of CSV records, in order: a record without
      exactly six columns is skipped, and a first column getop rejects stops
      everything with its panic. */
  ghost function Parse(records: seq<seq<string>>): (r: Outcome<seq<Row>, string>)
    ensures r.Returned? ==> forall i :: 0 <= i < |r.value| ==> |r.value[i]| == 10
  {
    if records == [] then Returned([])
    else
      match Parse(records[..|records| - 1])
      case Panicked(m) => Panicked(m)
      case Returned(rows) =>
        var rec := records[|records| - 1];
        if |rec| != 6 then Returned(rows)
        else match GetOp(rec[0])
          case Panicked(m) => Panicked(m)
          case Returned(mn) => Returned(rows + [MakeRow(mn, rec)])
  }

  /** How one more record changes the rows. */
  lemma ParseStep(records: seq<seq<string>>, i: nat)
    requires i < |records| && Parse(records[..i]).Returned?
    ensures var rows, rec := Parse(records[..i]).value, records[i];
      && (|rec| != 6 ==> Parse(records[..i + 1]) == Returned(rows))
      && (|rec| == 6 && GetOp(rec[0]).Panicked? ==> Parse(records[..i + 1]) == Panicked(GetOp(rec[0]).reason))
      && (|rec| == 6 && GetOp(rec[0]).Returned? ==>
           Parse(records[..i + 1]) == Returned(rows + [MakeRow(GetOp(rec[0]).value, rec)]))
  {
    assert records[..i + 1][..i] == records[..i];
  }

  /** Once a prefix of the records panics, all of them do, with the same
      reason. */
  lemma {:induction false} PanicSticks(records: seq<seq<string>>, i: nat)
    requires i <= |records| && Parse(records[..i]).Panicked?
    ensures Parse(records) == Parse(records[..i])
    decreases |records| - i
  {
    if i < |records| {
      assert records[..i + 1][..i] == records[..i];
      PanicSticks(records, i + 1);
    } else {
      assert records[..i] == records;
    }
  }

  /** The opcode of a group: that of its first row. */
  function Op(g: seq<Row>): string
  {
    if g != [] && g[0] != [] then g[0][0] else ""
  }

  ghost predicate Headed(rows: seq<Row>)
  {
    forall i :: 0 <= i < |rows| ==> |rows[i]| > 0
  }

  /** The rows split into maximal runs of consecutive rows with the same
      opcode. */
  ghost function Runs(rows: seq<Row>): (gs: seq<seq<Row>>)
    requires Headed(rows)
    ensures gs == [] <==> rows == []
  {
    if rows == [] then []
    else
      var prev := Runs(rows[..|rows| - 1]);
      var row := rows[|rows| - 1];
      if prev != [] && Op(prev[|prev| - 1]) == row[0] then
        prev[..|prev| - 1] + [prev[|prev| - 1] + [row]]
      else
        prev + [[row]]
  }

  ghost function Flat(gs: seq<seq<Row>>): seq<Row>
  {
    if gs == [] then [] else Flat(gs[..|gs| - 1]) + gs[|gs| - 1]
  }

  /** The groups that are written out. */
  ghost function Kept(gs: seq<seq<Row>>): seq<seq<Row>>
  {
    if gs == [] then []
    else Kept(gs[..|gs| - 1]) + (if Real(gs[|gs| - 1]) then [gs[|gs| - 1]] else [])
  }

  /** The number of rows in all groups. */
  ghost function Total(gs: seq<seq<Row>>): nat
  {
    if gs == [] then 0 else Total(gs[..|gs| - 1]) + |gs[|gs| - 1]|
  }

  /** The index pairs of groups numbered from `n` on. */
  ghost function Ranges(gs: seq<seq<Row>>, n: int): seq<(int, int)>
  {
    if gs == [] then []
    else Ranges(gs[..|gs| - 1], n) + [(n + Total(gs[..|gs| - 1]), n + Total(gs))]
  }

  ghost function ArgsOf(gs: seq<seq<Row>>): set<string>
  {
    if gs == [] then {} else ArgsOf(gs[..|gs| - 1]) + ArgsIn(gs[|gs| - 1])
  }

  /** The runs hold exactly the rows, in order. */
  lemma {:induction false} RunsFlat(rows: seq<Row>)
    requires Headed(rows)
    ensures Flat(Runs(rows)) == rows
  {
    if rows != [] {
      var init, row := rows[..|rows| - 1], rows[|rows| - 1];
      assert init + [row] == rows;
      RunsFlat(init);
      RunsFlatStep(init, row);
    }
  }

  /** The step of RunsFlat: one more row, whether it extends the last run or
      starts a new one, is one more row of the flattened runs. */
  lemma RunsFlatStep(init: seq<Row>, row: Row)
    requires Headed(init) && |row| > 0 && Flat(Runs(init)) == init
    ensures Headed(init + [row]) && Flat(Runs(init + [row])) == init + [row]
  {
    RunsStep(init, row);
    var prev := Runs(init);
    if prev != [] && Op(prev[|prev| - 1]) == row[0] {
      var p, last := prev[..|prev| - 1], prev[|prev| - 1];
      assert prev == p + [last];
      FlatSnoc(p, last);
      FlatSnoc(p, last + [row]);
    } else {
      FlatSnoc(prev, [row]);
    }
  }

  lemma FlatSnoc(gs: seq<seq<Row>>, g: seq<Row>)
    ensures Flat(gs + [g]) == Flat(gs) + g
  {
    assert (gs + [g])[..|gs|] == gs;
  }

  /** How one more row changes the runs: it either extends the last run,
      when it has that run's opcode, or starts a new one. */
  lemma RunsStep(rows: seq<Row>, row: Row)
    requires Headed(rows) && |row| > 0
    ensures Headed(rows + [row])
    ensures var gs, gs' := Runs(rows), Runs(rows + [row]);
      if gs != [] && Op(gs[|gs| - 1]) == row[0] then
        gs' == gs[..|gs| - 1] + [gs[|gs| - 1] + [row]] && Op(gs[|gs| - 1] + [row]) == Op(gs[|gs| - 1])
      else
        gs' == gs + [[row]]
  {
    assert (rows + [row])[..|rows|] == rows;
  }

  /** RunsStep in terms of the finished runs `done` and the run `l` being
      gathered. */
  lemma RunsAppend(rows: seq<Row>, done: seq<seq<Row>>, l: seq<Row>, row: Row)
    requires Headed(rows) && |row| > 0
    requires rows == [] ==> done == [] && l == []
    requires rows != [] ==> Runs(rows) == done + [l] && l != []
    ensures Headed(rows + [row])
    ensures rows != [] && Op(l) == row[0] ==>
      Runs(rows + [row]) == done + [l + [row]] && Op(l + [row]) == Op(l)
    ensures rows == [] ==> Runs(rows + [row]) == [[row]]
    ensures rows != [] && Op(l) != row[0] ==> Runs(rows + [row]) == (done + [l]) + [[row]]
  {
    RunsStep(rows, row);
    if rows != [] {
      assert (done + [l])[..|done|] == done;
    }
  }

  /** Every run is non-empty and all of its rows have the run's opcode. */
  lemma {:induction false} RunsUniform(rows: seq<Row>)
    requires Headed(rows)
    ensures var gs := Runs(rows);
      forall i, j :: 0 <= i < |gs| && 0 <= j < |gs[i]| ==> gs[i][j] != [] && gs[i][j][0] == Op(gs[i])
  {
    if rows != [] {
      var init, row := rows[..|rows| - 1], rows[|rows| - 1];
      assert init + [row] == rows;
      RunsUniform(init);
      RunsStep(init, row);
      var prev := Runs(init);
      var gs := Runs(rows);
      if prev != [] && Op(prev[|prev| - 1]) == row[0] {
        var last := prev[|prev| - 1];
        forall i, j | 0 <= i < |gs| && 0 <= j < |gs[i]|
          ensures gs[i][j] != [] && gs[i][j][0] == Op(gs[i])
        {
          if i < |gs| - 1 {
            assert gs[i] == prev[i];
          } else if j < |last| {
            assert gs[i][j] == last[j];
          } else {
            assert gs[i][j] == row;
          }
        }
      } else {
        forall i, j | 0 <= i < |gs| && 0 <= j < |gs[i]|
          ensures gs[i][j] != [] && gs[i][j][0] == Op(gs[i])
        {
          if i < |gs| - 1 {
            assert gs[i] == prev[i];
          }
        }
      }
    }
  }

  /** Runs are maximal: neighbouring runs have different opcodes. */
  lemma {:induction false} RunsMaximal(rows: seq<Row>)
    requires Headed(rows)
    ensures var gs := Runs(rows);
      forall i :: 0 < i < |gs| ==> Op(gs[i - 1]) != Op(gs[i])
  {
    if rows != [] {
      var init, row := rows[..|rows| - 1], rows[|rows| - 1];
      assert init + [row] == rows;
      RunsMaximal(init);
      RunsStep(init, row);
      var prev := Runs(init);
      var gs := Runs(rows);
      forall i | 0 < i < |gs|
        ensures Op(gs[i - 1]) != Op(gs[i])
      {
        if i < |prev| - 1 || (i == |prev| - 1 && !(prev != [] && Op(prev[|prev| - 1]) == row[0])) {
          assert gs[i - 1] == prev[i - 1] && gs[i] == prev[i];
        } else if i == |prev| - 1 {
          assert gs[i - 1] == prev[i - 1];
        } else {
          assert gs[i - 1] == prev[i - 1];
          assert Op(gs[i]) == row[0];
        }
      }
    }
  }

  /** The written groups are exactly the groups that are not all pseudo-ops,
      in their order. */
  lemma {:induction false} KeptFilter(gs: seq<seq<Row>>)
    ensures forall i :: 0 <= i < |Kept(gs)| ==> Real(Kept(gs)[i])
    ensures forall g :: g in Kept(gs) <==> g in gs && Real(g)
  {
    if gs != [] {
      KeptFilter(gs[..|gs| - 1]);
      assert gs == gs[..|gs| - 1] + [gs[|gs| - 1]];
    }
  }

  /** Filtering works piece by piece, and one group is kept exactly when it
      is real: so the written groups are the real ones in their order, each
      as often as it occurs. */
  lemma {:induction false} KeptAppend(a: seq<seq<Row>>, b: seq<seq<Row>>)
    ensures Kept(a + b) == Kept(a) + Kept(b)
    ensures |b| == 1 ==> Kept(b) == (if Real(b[0]) then b else [])
    decreases |b|
  {
    if b == [] {
      assert a + b == a && Kept(a) + [] == Kept(a);
    } else {
      var init, last := b[..|b| - 1], b[|b| - 1];
      assert (a + b)[..|a + b| - 1] == a + init && (a + b)[|a + b| - 1] == last;
      KeptAppend(a, init);
      if |b| == 1 {
        assert init == [] && [last] == b;
      }
    }
  }

  /** The index pairs are contiguous: they start at `n`, each spans its
      group's rows, and each starts where the previous one ends. */
  lemma {:induction false} RangesContiguous(gs: seq<seq<Row>>, n: int)
    ensures var rs := Ranges(gs, n);
      && |rs| == |gs|
      && (gs != [] ==> rs[0].0 == n && rs[|rs| - 1].1 == n + Total(gs))
      && (forall i :: 0 <= i < |gs| ==> rs[i].1 == rs[i].0 + |gs[i]|)
      && (forall i :: 0 < i < |gs| ==> rs[i].0 == rs[i - 1].1)
  {
    if gs != [] {
      var init := gs[..|gs| - 1];
      RangesContiguous(init, n);
      if init == [] {
        assert Total(init) == 0;
      }
    }
  }

  /** Emitting one more group `l` after the groups `d` adds it to the
      written groups exactly when it is not all pseudo-ops. */
  lemma EmitStep(d: seq<seq<Row>>, l: seq<Row>)
    ensures Real(l) ==> Kept(d + [l]) == Kept(d) + [l]
    ensures !Real(l) ==> Kept(d + [l]) == Kept(d)
    ensures Real(l) ==>
      && Ranges(Kept(d + [l]), 0) == Ranges(Kept(d), 0) + [(Total(Kept(d)), Total(Kept(d)) + |l|)]
      && Total(Kept(d + [l])) == Total(Kept(d)) + |l|
      && ArgsOf(Kept(d + [l])) == ArgsOf(Kept(d)) + ArgsIn(l)
  {
    var dl := d + [l];
    assert dl[..|dl| - 1] == d && dl[|dl| - 1] == l;
    if !Real(l) {
      assert Kept(dl) == Kept(d) + [];
      assert Kept(d) + [] == Kept(d);
    } else {
      var ks := Kept(d) + [l];
      assert Kept(dl) == ks;
      assert ks[..|ks| - 1] == Kept(d) && ks[|ks| - 1] == l;
      assert Total(ks) == Total(Kept(d)) + |l|;
      assert Ranges(ks, 0) == Ranges(Kept(d), 0) + [(0 + Total(Kept(d)), 0 + Total(ks))];
      assert ArgsOf(ks) == ArgsOf(Kept(d)) + ArgsIn(l);
    }
  }

  /** The runs of the main loop after the rows `rows`: `done` are the
      finished runs, `l` is the run being gathered and `cur` its opcode. */
  ghost predicate Shape(rows: seq<Row>, done: seq<seq<Row>>, l: seq<Row>, cur: string)
  {
    && Headed(rows) && Rows(l)
    && (rows == [] ==> done == [] && l == [] && cur == "")
    && (rows != [] ==> Runs(rows) == done + [l] && l != [] && cur == Op(l))
  }

  /** The table lines `t`, index pairs `x` and operand kinds `a` are, after
      `t0`, `x0` and `a0`, what emitting the runs `done` adds, with `n` rows
      written. */
  ghost predicate Output(t: seq<seq<Row>>, x: seq<(int, int)>, a: set<string>,
                         t0: seq<seq<Row>>, x0: seq<(int, int)>, a0: set<string>,
                         done: seq<seq<Row>>, n: int)
  {
    && t == t0 + Kept(done)
    && x == x0 + Ranges(Kept(done), 0)
    && a == a0 + ArgsOf(Kept(done))
    && n == Total(Kept(done))
  }

  ghost predicate Grouped(t: seq<seq<Row>>, x: seq<(int, int)>, a: set<string>,
                          t0: seq<seq<Row>>, x0: seq<(int, int)>, a0: set<string>,
                          rows: seq<Row>, done: seq<seq<Row>>, l: seq<Row>, cur: string, n: int)
  {
    Shape(rows, done, l, cur) && Output(t, x, a, t0, x0, a0, done, n)
  }

  /** The effect of Emit(l, n) from `t`, `x`, `a` to `t'`, `x'`, `a'`. */
  ghost predicate Emits(t: seq<seq<Row>>, x: seq<(int, int)>, a: set<string>,
                        t': seq<seq<Row>>, x': seq<(int, int)>, a': set<string>,
                        l: seq<Row>, n: int, n': int)
  {
    && (Real(l) ==> n' == n + |l| && t' == t + [l] && x' == x + [(n, n + |l|)] && a' == a + ArgsIn(l))
    && (!Real(l) ==> n' == n && t' == t && x' == x && a' == a)
  }

  /** Emitting one more run keeps the output in step with the runs. */
  lemma OutputStep(t: seq<seq<Row>>, x: seq<(int, int)>, a: set<string>,
                   t': seq<seq<Row>>, x': seq<(int, int)>, a': set<string>,
                   t0: seq<seq<Row>>, x0: seq<(int, int)>, a0: set<string>,
                   done: seq<seq<Row>>, l: seq<Row>, n: int, n': int)
    requires Output(t, x, a, t0, x0, a0, done, n)
    requires Emits(t, x, a, t', x', a', l, n, n')
    ensures Output(t', x', a', t0, x0, a0, done + [l], n')
  {
    EmitStep(done, l);
    if Real(l) {
      var rs, p := Ranges(Kept(done), 0), (n, n + |l|);
      assert Ranges(Kept(done + [l]), 0) == rs + [p];
      assert (x0 + rs) + [p] == x0 + (rs + [p]);
    }
  }

  /** Emitting the gathered run and starting a new one with `row` keeps the
      loop's state. */
  lemma StartStep(t: seq<seq<Row>>, x: seq<(int, int)>, a: set<string>,
                  t': seq<seq<Row>>, x': seq<(int, int)>, a': set<string>,
                  t0: seq<seq<Row>>, x0: seq<(int, int)>, a0: set<string>,
                  rows: seq<Row>, done: seq<seq<Row>>, l: seq<Row>, cur: string, n: int, n': int, row: Row)
    requires Grouped(t, x, a, t0, x0, a0, rows, done, l, cur, n)
    requires |row| == 10 && row[0] != cur
    requires Emits(t, x, a, t', x', a', l, n, n')
    ensures Grouped(t', x', a', t0, x0, a0, rows + [row], if rows == [] then [] else done + [l], [row], row[0], n')
  {
    RunsAppend(rows, done, l, row);
    if rows == [] {
      assert !Real(l);
      assert Runs(rows + [row]) == [] + [[row]];
    } else {
      OutputStep(t, x, a, t', x', a', t0, x0, a0, done, l, n, n');
    }
  }

  /** A row with the current opcode extends the gathered run. */
  lemma ExtendStep(t: seq<seq<Row>>, x: seq<(int, int)>, a: set<string>,
                   t0: seq<seq<Row>>, x0: seq<(int, int)>, a0: set<string>,
                   rows: seq<Row>, done: seq<seq<Row>>, l: seq<Row>, cur: string, n: int, row: Row)
    requires Grouped(t, x, a, t0, x0, a0, rows, done, l, cur, n)
    requires |row| == 10 && row[0] == cur && cur != ""
    ensures Grouped(t, x, a, t0, x0, a0, rows + [row], done, l + [row], cur, n)
  {
    RunsAppend(rows, done, l, row);
  }

  /** Emitting the last run at the end of input leaves the output of all
      runs. */
  lemma FinishStep(t: seq<seq<Row>>, x: seq<(int, int)>, a: set<string>,
                   t': seq<seq<Row>>, x': seq<(int, int)>, a': set<string>,
                   t0: seq<seq<Row>>, x0: seq<(int, int)>, a0: set<string>,
                   rows: seq<Row>, done: seq<seq<Row>>, l: seq<Row>, cur: string, n: int, n': int)
    requires Grouped(t, x, a, t0, x0, a0, rows, done, l, cur, n)
    requires Emits(t, x, a, t', x', a', l, n, n')
    ensures Output(t', x', a', t0, x0, a0, Runs(rows), n')
  {
    if rows != [] {
      OutputStep(t, x, a, t', x', a', t0, x0, a0, done, l, n, n');
    }
  }

  /** The state the generator writes: the table file's lines (a line stands
      for the group of rows it renders), the index file's pairs, and the
      global set of operand kinds. */
  class Generator {
    var table: seq<seq<Row>>
    var idcs: seq<(int, int)>
    var argtypes: set<string>

    constructor ()
      ensures table == [] && idcs == [] && argtypes == {}
    {
      table, idcs, argtypes := [], [], {};
    }

    /** emit(l, n): a group that is not all pseudo-ops becomes one table line
        and the index pair (n, n + |l|), its operands join argtypes, and
        n + |l| is returned; any other group, the empty one included, writes
        nothing and returns n. */
    method Emit(l: seq<Row>, n: int) returns (r: int)
      requires Rows(l)
      modifies this
      ensures Real(l) ==>
        && r == n + |l|
        && table == old(table) + [l]
        && idcs == old(idcs) + [(n, n + |l|)]
        && argtypes == old(argtypes) + ArgsIn(l)
      ensures !Real(l) ==>
        r == n && table == old(table) && idcs == old(idcs) && argtypes == old(argtypes)
    {
      if |l| == 0 {
        return n;
      }
      var o: seq<Row> := [];
      var args: seq<string> := [];
      var ok := false;
      var i := 0;
      while i < |l|
        invariant 0 <= i <= |l|
        invariant ok <==> exists j :: 0 <= j < i && !IsPseudo(l[j])
        invariant o == l[..i]
        invariant Elems(args) == ArgsIn(l[..i])
        invariant table == old(table) && idcs == old(idcs) && argtypes == old(argtypes)
      {
        if !ok && !IsPseudo(l[i]) {
          ok := true;
        }
        o := o + [l[i]];
        assert l[..i + 1][..i] == l[..i];
        ElemsAppend(args, l[i][1..5]);
        assert Elems(l[i][1..5]) == {l[i][1], l[i][2], l[i][3], l[i][4]};
        args := args + l[i][1..5];
        i := i + 1;
      }
      assert l[..|l|] == l;
      if ok {
        var j := 0;
        while j < |args|
          invariant 0 <= j <= |args|
          invariant argtypes == old(argtypes) + Elems(args[..j])
          invariant table == old(table) && idcs == old(idcs)
        {
          assert Elems(args[..j + 1]) == Elems(args[..j]) + {args[j]};
          argtypes := argtypes + {args[j]};
          j := j + 1;
        }
        assert args[..|args|] == args;
        table := table + [o];
        idcs := idcs + [(n, n + |l|)];
        return n + |l|;
      }
      return n;
    }
  
    /** A row whose opcode differs from the current one: the run gathered
        so far is emitted and a new run starts with the row. */
    method Start(row: Row, l: seq<Row>, n: int, ghost t0: seq<seq<Row>>, ghost x0: seq<(int, int)>,
                 ghost a0: set<string>, ghost rows: seq<Row>, ghost done: seq<seq<Row>>, ghost cur: string)
      returns (l': seq<Row>, n': int, ghost done': seq<seq<Row>>)
      requires Grouped(table, idcs, argtypes, t0, x0, a0, rows, done, l, cur, n)
      requires |row| == 10 && row[0] != cur
      modifies this
      ensures Grouped(table, idcs, argtypes, t0, x0, a0, rows + [row], done', l', row[0], n')
    {
      ghost var t1, x1, a1 := table, idcs, argtypes;
      n' := Emit(l, n);
      StartStep(t1, x1, a1, table, idcs, argtypes, t0, x0, a0, rows, done, l, cur, n, n', row);
      done' := if rows == [] then [] else done + [l];
      l' := [row];
    }


    /** One record of the main loop: a record without six columns is
        skipped, getop's panic is passed on, a row with a new opcode emits
        the gathered run and starts a new one, and any other row joins it. */
    method Feed(rec: seq<string>, l: seq<Row>, n: int, cur: string, ghost t0: seq<seq<Row>>,
                ghost x0: seq<(int, int)>, ghost a0: set<string>, ghost rows: seq<Row>, ghost done: seq<seq<Row>>,
                ghost records: seq<seq<string>>, ghost i: nat)
      returns (p: Option<string>, l': seq<Row>, n': int, cur': string, ghost rows': seq<Row>, ghost done': seq<seq<Row>>)
      requires i < |records| && rec == records[i] && Parse(records[..i]) == Returned(rows)
      requires Grouped(table, idcs, argtypes, t0, x0, a0, rows, done, l, cur, n)
      modifies this
      ensures p.Some? <==> |rec| == 6 && GetOp(rec[0]).Panicked?
      ensures p.Some? ==> Parse(records[..i + 1]) == Panicked(p.value)
      ensures p.None? ==>
        && rows' == (if |rec| == 6 then rows + [MakeRow(GetOp(rec[0]).value, rec)] else rows)
        && Parse(records[..i + 1]) == Returned(rows')
        && Grouped(table, idcs, argtypes, t0, x0, a0, rows', done', l', cur', n')
    {
      ParseStep(records, i);
      p, l', n', cur', rows', done' := None, l, n, cur, rows, done;
      if |rec| == 6 {
        var g := GetOp(rec[0]);
        if g.Panicked? {
          return Some(g.reason), l, n, cur, rows, done;
        }
        var row := MakeRow(g.value, rec);
        if g.value.op != cur {
          l', n', done' := Start(row, l, n, t0, x0, a0, rows, done, cur);
          cur' := g.value.op;
        } else {
          ExtendStep(table, idcs, argtypes, t0, x0, a0, rows, done, l, cur, n, row);
          l' := l + [row];
        }
        rows' := rows + [row];
      }
    }

    /** The main loop over the records: consecutive rows with the same
        opcode form one group, each finished group is emitted with the row
        count so far, and the last one is emitted at the end of input. The
        result is that every group of Runs that is not all pseudo-ops becomes
        a table line with its index pair, in order; a first column getop
        rejects panics with that column. */
    method Run(records: seq<seq<string>>) returns (r: Outcome<(), string>)
      modifies this
      ensures r.Panicked? <==> Parse(records).Panicked?
      ensures r.Panicked? ==> r.reason == Parse(records).reason
      ensures r.Returned? ==>
        var ks := Kept(Runs(Parse(records).value));
        && table == old(table) + ks
        && idcs == old(idcs) + Ranges(ks, 0)
        && argtypes == old(argtypes) + ArgsOf(ks)
    {
      var cur := "";
      var l: seq<Row> := [];
      var n := 0;
      ghost var rows: seq<Row> := [];
      ghost var done: seq<seq<Row>> := [];
      var i := 0;
      while i < |records|
        invariant 0 <= i <= |records|
        invariant Parse(records[..i]) == Returned(rows)
        invariant Grouped(table, idcs, argtypes, old(table), old(idcs), old(argtypes), rows, done, l, cur, n)
      {
        var p;
        p, l, n, cur, rows, done := Feed(records[i], l, n, cur, old(table), old(idcs), old(argtypes), rows, done, records, i);
        if p.Some? {
          PanicSticks(records, i + 1);
          return Panicked(p.value);
        }
        i := i + 1;
      }
      assert records[..|records|] == records;
      ghost var t1, x1, a1 := table, idcs, argtypes;
      var n' := Emit(l, n);
      FinishStep(t1, x1, a1, table, idcs, argtypes, old(table), old(idcs), old(argtypes), rows, done, l, cur, n, n');
      r := Returned(());
    }
  }
}
