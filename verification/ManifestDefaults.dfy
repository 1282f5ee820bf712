/**
 A plugin manifest without what it need not state (scripts/lib/plugin-manifest-defaults.py,
 `convert`). A manifest is its lines; which lines go is said line by line here, and `Convert` is
 the script's loops. What has to survive is the meaning: the value of every key of every table.
 */
module ManifestDefaults {
  import opened Wrappers

  /** A value is None where it does not end on its line. */
  datatype Line<V> =
    | Header(table: string)
    | KeyLine(key: string, value: Option<V>)
    | Comment(text: string)
    | Blank
    | Other(text: string)

  type Tables<V> = map<string, map<string, V>>

  const LIMITS := "limits"

  /** The table a line belongs to; a header belongs to the table it opens. */
  function Section<V>(lines: seq<Line<V>>, i: nat): string
    requires i < |lines|
  {
    if lines[i].Header? then lines[i].table else if i == 0 then "" else Section(lines, i - 1)
  }

  predicate States<V(==)>(tables: Tables<V>, table: string, key: string, value: Option<V>) {
    table in tables && key in tables[table] && value == Some(tables[table][key])
  }

  /** A field whose value is the default of its table. */
  predicate IsDefault<V(==)>(lines: seq<Line<V>>, tables: Tables<V>, i: nat)
    requires i < |lines|
  {
    lines[i].KeyLine? && States(tables, Section(lines, i), lines[i].key, lines[i].value)
  }

  /** The first line after `i` that is no default, or the end. */
  function Following<V(==)>(lines: seq<Line<V>>, tables: Tables<V>, i: nat): (f: nat)
    requires i <= |lines|
    ensures i <= f <= |lines|
    ensures forall j :: i <= j < f ==> IsDefault(lines, tables, j)
    ensures f < |lines| ==> !IsDefault(lines, tables, f)
    decreases |lines| - i
  {
    if i == |lines| || !IsDefault(lines, tables, i) then i else Following(lines, tables, i + 1)
  }

  /** Whether a comment above the default at `i` introduces the field that stays below it. */
  predicate Introduces<V(==)>(lines: seq<Line<V>>, tables: Tables<V>, i: nat)
    requires i < |lines|
  {
    var f := Following(lines, tables, i + 1);
    f < |lines| && lines[f].KeyLine? && Section(lines, f) == Section(lines, i)
  }

  /** A comment that explained a removed line: nothing but comments lie between the two. */
  predicate Explains<V(==)>(lines: seq<Line<V>>, tables: Tables<V>, c: nat, i: nat)
    requires c < i < |lines|
  {
    && IsDefault(lines, tables, i) && !Introduces(lines, tables, i)
    && forall j :: c <= j < i ==> lines[j].Comment?
  }

  predicate GoesAlong<V(==)>(lines: seq<Line<V>>, tables: Tables<V>, c: nat)
    requires c < |lines|
  {
    exists i :: c < i < |lines| && Explains(lines, tables, c, i)
  }

  predicate InBody<V>(lines: seq<Line<V>>, h: nat, j: nat)
    requires h < |lines| && j < |lines|
  {
    h < j && !lines[j].Header? && Section(lines, j) == LIMITS
  }

  /** A [limits] header below which no field stays. */
  predicate IsEmptied<V(==)>(lines: seq<Line<V>>, tables: Tables<V>, h: nat)
    requires h < |lines|
  {
    lines[h] == Header(LIMITS)
    && forall j :: 0 <= j < |lines| && InBody(lines, h, j) ==>
         IsDefault(lines, tables, j) || GoesAlong(lines, tables, j) || lines[j] == Blank
  }

  predicate Goes<V(==)>(lines: seq<Line<V>>, tables: Tables<V>, i: nat)
    requires i < |lines|
  {
    || IsDefault(lines, tables, i)
    || GoesAlong(lines, tables, i)
    || IsEmptied(lines, tables, i)
    || exists h :: 0 <= h < i && IsEmptied(lines, tables, h) && InBody(lines, h, i)
  }

  // ---- the lines that stay, by index ----

  function Kept<V(==)>(lines: seq<Line<V>>, tables: Tables<V>, n: nat): seq<nat>
    requires n <= |lines|
  {
    if n == 0 then []
    else Kept(lines, tables, n - 1) + if Goes(lines, tables, n - 1) then [] else [n - 1]
  }

  predicate Within(at: seq<nat>, n: nat) {
    forall i :: 0 <= i < |at| ==> at[i] < n
  }

  /** No blank line first, and no two in a row. */
  function Tidied<V(==)>(lines: seq<Line<V>>, at: seq<nat>): (r: seq<nat>)
    requires Within(at, |lines|)
    ensures forall i :: 0 <= i < |r| ==> r[i] in at
  {
    if at == [] then []
    else
      var r, last := Tidied(lines, at[..|at| - 1]), at[|at| - 1];
      if lines[last] == Blank && (r == [] || lines[r[|r| - 1]] == Blank) then r else r + [last]
  }

  /** And none last. */
  function Trimmed<V(==)>(lines: seq<Line<V>>, at: seq<nat>): (r: seq<nat>)
    requires Within(at, |lines|)
    ensures r <= at
    ensures r != [] ==> lines[r[|r| - 1]] != Blank
    ensures forall i :: |r| <= i < |at| ==> lines[at[i]] == Blank
  {
    if at == [] || lines[at[|at| - 1]] != Blank then at else Trimmed(lines, at[..|at| - 1])
  }

  ghost predicate Increasing(at: seq<nat>) {
    forall i, j :: 0 <= i < j < |at| ==> at[i] < at[j]
  }

  lemma {:induction false} AppendIncreases(r: seq<nat>, x: nat)
    requires Increasing(r) && Within(r, x)
    ensures Increasing(r + [x])
  {
  }

  lemma {:induction false} KeptIncreases<V>(lines: seq<Line<V>>, tables: Tables<V>, n: nat)
    requires n <= |lines|
    ensures Increasing(Kept(lines, tables, n)) && Within(Kept(lines, tables, n), n)
  {
    if n > 0 {
      KeptIncreases(lines, tables, n - 1);
      AppendIncreases(Kept(lines, tables, n - 1), n - 1);
    }
  }

  lemma {:induction false} KeptHolds<V>(lines: seq<Line<V>>, tables: Tables<V>, n: nat, j: nat)
    requires j < n <= |lines|
    ensures j in Kept(lines, tables, n) <==> !Goes(lines, tables, j)
  {
    var before := Kept(lines, tables, n - 1);
    KeptIncreases(lines, tables, n - 1);
    assert n - 1 !in before;
    if j < n - 1 {
      KeptHolds(lines, tables, n - 1, j);
      assert Goes(lines, tables, n - 1) || Kept(lines, tables, n) == before + [n - 1];
    } else {
      assert Kept(lines, tables, n) == if Goes(lines, tables, j) then before else before + [j];
    }
  }

  lemma {:induction false} KeptIsExact<V>(lines: seq<Line<V>>, tables: Tables<V>, n: nat)
    requires n <= |lines|
    ensures Increasing(Kept(lines, tables, n))
    ensures Within(Kept(lines, tables, n), n)
    ensures forall j :: 0 <= j < n ==> (j in Kept(lines, tables, n) <==> !Goes(lines, tables, j))
  {
    KeptIncreases(lines, tables, n);
    forall j | 0 <= j < n ensures j in Kept(lines, tables, n) <==> !Goes(lines, tables, j) {
      KeptHolds(lines, tables, n, j);
    }
  }

  lemma {:induction false} TidiedNext<V>(lines: seq<Line<V>>, at: seq<nat>, n: nat)
    requires n < |lines| && Within(at, |lines|)
    ensures Within(at + [n], |lines|)
    ensures Tidied(lines, at + [n]) == var r := Tidied(lines, at);
              if lines[n] == Blank && (r == [] || lines[r[|r| - 1]] == Blank) then r else r + [n]
  {
    assert (at + [n])[..|at|] == at;
  }

  lemma {:induction false} WithinLast(at: seq<nat>, r: seq<nat>)
    requires Increasing(at) && at != [] && forall i :: 0 <= i < |r| ==> r[i] in at[..|at| - 1]
    ensures Within(r, at[|at| - 1])
  {
  }

  lemma {:induction false} TidiedIncreases<V>(lines: seq<Line<V>>, at: seq<nat>)
    requires Increasing(at) && Within(at, |lines|)
    ensures Increasing(Tidied(lines, at))
  {
    if at != [] {
      var r := Tidied(lines, at[..|at| - 1]);
      TidiedIncreases(lines, at[..|at| - 1]);
      WithinLast(at, r);
      AppendIncreases(r, at[|at| - 1]);
    }
  }

  lemma {:induction false} TidiedKeepsText<V>(lines: seq<Line<V>>, at: seq<nat>, j: nat)
    requires Within(at, |lines|) && j in at && lines[j] != Blank
    ensures j in Tidied(lines, at)
  {
    var n := |at| - 1;
    if j != at[n] {
      assert j in at[..n];
      TidiedKeepsText(lines, at[..n], j);
    }
  }

  lemma {:induction false} TidiedHasNoRuns<V>(lines: seq<Line<V>>, at: seq<nat>)
    requires Within(at, |lines|)
    ensures NoBlankRuns(lines, Tidied(lines, at))
  {
    if at != [] {
      TidiedHasNoRuns(lines, at[..|at| - 1]);
    }
  }

  ghost predicate NoBlankRuns<V>(lines: seq<Line<V>>, at: seq<nat>)
    requires Within(at, |lines|)
  {
    && (at != [] ==> lines[at[0]] != Blank)
    && forall i :: 0 < i < |at| ==> lines[at[i - 1]] != Blank || lines[at[i]] != Blank
  }

  /** The indexes of the lines of the converted manifest. */
  function Survivors<V(==)>(lines: seq<Line<V>>, tables: Tables<V>): seq<nat> {
    KeptIsExact(lines, tables, |lines|);
    Trimmed(lines, Tidied(lines, Kept(lines, tables, |lines|)))
  }

  lemma {:induction false} TrimmedIsExact<V>(lines: seq<Line<V>>, at: seq<nat>)
    requires Increasing(at) && Within(at, |lines|) && NoBlankRuns(lines, at)
    ensures var r := Trimmed(lines, at);
            && Increasing(r) && NoBlankRuns(lines, r)
            && (forall j <- r :: j in at) && (forall j <- at :: lines[j] != Blank ==> j in r)
  {
    var r := Trimmed(lines, at);
    assert forall i :: 0 <= i < |r| ==> r[i] == at[i];
    forall j | j in at && lines[j] != Blank ensures j in r {
      var i :| 0 <= i < |at| && at[i] == j;
      assert r[i] == j;
    }
  }

  lemma {:induction false} SurvivorsAreExact<V>(lines: seq<Line<V>>, tables: Tables<V>)
    ensures var at := Survivors(lines, tables);
            && Increasing(at)
            && (forall i :: 0 <= i < |at| ==> at[i] < |lines| && !Goes(lines, tables, at[i]))
            && (forall j :: 0 <= j < |lines| && !Goes(lines, tables, j) && lines[j] != Blank ==> j in at)
            && NoBlankRuns(lines, at) && (at != [] ==> lines[at[|at| - 1]] != Blank)
  {
    KeptIsExact(lines, tables, |lines|);
    var kept := Kept(lines, tables, |lines|);
    var tidied := Tidied(lines, kept);
    TidiedIncreases(lines, kept);
    TidiedHasNoRuns(lines, kept);
    forall j | j in kept && lines[j] != Blank ensures j in tidied {
      TidiedKeepsText(lines, kept, j);
    }
    TrimmedIsExact(lines, tidied);
    var at := Trimmed(lines, tidied);
    forall i | 0 <= i < |at| ensures at[i] < |lines| && !Goes(lines, tables, at[i]) {
      assert at[i] in tidied && at[i] in kept;
    }
  }

  /** The converted manifest: its lines are lines of the original, in their order. */
  function Converted<V(==)>(lines: seq<Line<V>>, tables: Tables<V>): (r: seq<Line<V>>)
    ensures |r| == |Survivors(lines, tables)|
  {
    SurvivorsAreExact(lines, tables);
    Select(lines, Survivors(lines, tables))
  }

  function Select<V>(lines: seq<Line<V>>, at: seq<nat>): (r: seq<Line<V>>)
    requires Within(at, |lines|)
    ensures |r| == |at| && forall i :: 0 <= i < |at| ==> r[i] == lines[at[i]]
  {
    seq(|at|, i requires 0 <= i < |at| => lines[at[i]])
  }

  // ---- every line that stays keeps its table ----

  /** The last header at or above a line, -1 for none. */
  function LastHeader<V>(lines: seq<Line<V>>, i: nat): (h: int)
    requires i < |lines|
    ensures -1 <= h <= i
    ensures h >= 0 ==> lines[h].Header? && Section(lines, i) == lines[h].table
    ensures h == -1 ==> Section(lines, i) == ""
    ensures forall j :: h < j <= i ==> !lines[j].Header?
  {
    if lines[i].Header? then i else if i == 0 then -1 else LastHeader(lines, i - 1)
  }

  /** The header of a line that stays stays as well. */
  lemma {:induction false} HeaderStays<V>(lines: seq<Line<V>>, tables: Tables<V>, i: nat)
    requires i < |lines| && !Goes(lines, tables, i)
    ensures var h := LastHeader(lines, i); h >= 0 ==> !Goes(lines, tables, h)
  {
    var h := LastHeader(lines, i);
    if h >= 0 && h < i {
      assert forall k :: 0 <= k < h && IsEmptied(lines, tables, k) ==> !InBody(lines, k, h);
      assert !IsEmptied(lines, tables, h) || !InBody(lines, h, i);
    }
  }

  lemma {:induction false} SectionBetween<V>(lines: seq<Line<V>>, i: nat, j: nat)
    requires i <= j < |lines| && LastHeader(lines, j) <= i
    ensures Section(lines, j) == Section(lines, i)
    decreases j
  {
    if i < j {
      SectionBetween(lines, i, j - 1);
    }
  }

  /** The header above every line of a selection is in it. */
  ghost predicate HasItsHeaders<V>(lines: seq<Line<V>>, at: seq<nat>)
    requires Within(at, |lines|)
  {
    forall i :: 0 <= i < |at| ==> var h := LastHeader(lines, at[i]); h >= 0 ==> h in at
  }

  lemma {:induction false} HeaderIsSelected<V>(lines: seq<Line<V>>, at: seq<nat>, i: nat)
    requires Increasing(at) && Within(at, |lines|) && HasItsHeaders(lines, at) && i < |at|
    requires !lines[at[i]].Header?
    ensures LastHeader(lines, at[i]) >= 0 ==> i > 0 && LastHeader(lines, at[i]) <= at[i - 1]
  {
    var h := LastHeader(lines, at[i]);
    if h >= 0 {
      var k :| 0 <= k < |at| && at[k] == h;
      assert k < i && (k < i - 1 ==> at[k] < at[i - 1]);
    }
  }

  lemma {:induction false} SectionGoesOn<V>(out: seq<Line<V>>, i: nat)
    requires i < |out| && !out[i].Header?
    ensures Section(out, i) == if i == 0 then "" else Section(out, i - 1)
  {
  }

  lemma {:induction false} SelectedSection<V>(lines: seq<Line<V>>, at: seq<nat>, i: nat)
    requires Increasing(at) && Within(at, |lines|) && HasItsHeaders(lines, at) && i < |at|
    ensures Section(Select(lines, at), i) == Section(lines, at[i])
  {
    if !lines[at[i]].Header? {
      HeaderIsSelected(lines, at, i);
      SectionGoesOn(Select(lines, at), i);
      if i > 0 {
        SelectedSection(lines, at, i - 1);
        SectionBetween(lines, at[i - 1], at[i]);
      }
    }
  }

  /** The line `i` of the converted manifest belongs to the table it belonged to before. */
  lemma {:induction false} SectionIsKept<V>(lines: seq<Line<V>>, tables: Tables<V>, i: nat)
    requires i < |Converted(lines, tables)|
    ensures Survivors(lines, tables)[i] < |lines|
    ensures Section(Converted(lines, tables), i) == Section(lines, Survivors(lines, tables)[i])
  {
    SurvivorsAreExact(lines, tables);
    var at := Survivors(lines, tables);
    forall k | 0 <= k < |at|
      ensures var h := LastHeader(lines, at[k]); h >= 0 ==> h in at
    {
      HeaderStays(lines, tables, at[k]);
    }
    SelectedSection(lines, at, i);
  }

  // ---- the meaning of a manifest ----

  /** What a key of a table is: absent, a value that spans lines, or a value. */
  datatype Meaning<V> = Absent | Spanning | Is(value: V)

  predicate StatesAt<V>(lines: seq<Line<V>>, table: string, key: string, i: int) {
    0 <= i < |lines| && lines[i].KeyLine? && lines[i].key == key && Section(lines, i) == table
  }

  /** The table states the key at most once, as TOML demands of a plain table. The elements of an array
      of tables share a name here, and there a key may occur once in each. */
  ghost predicate Once<V>(lines: seq<Line<V>>, table: string, key: string) {
    forall i, j :: StatesAt(lines, table, key, i) && StatesAt(lines, table, key, j) ==> i == j
  }

  /** The stated value, or else the default of the table. */
  ghost function MeaningOf<V>(lines: seq<Line<V>>, tables: Tables<V>, table: string, key: string): Meaning<V> {
    if i :| StatesAt(lines, table, key, i) then
      if lines[i].value.None? then Spanning else Is(lines[i].value.value)
    else if table in tables && key in tables[table] then Is(tables[table][key])
    else Absent
  }

  /** Only defaults, their comments and emptied [limits] tables can go. */
  lemma {:induction false} OthersStay<V>(lines: seq<Line<V>>, tables: Tables<V>, i: nat)
    requires i < |lines|
    requires || lines[i].Other? || (lines[i].KeyLine? && !IsDefault(lines, tables, i))
             || (lines[i].Header? && lines[i].table != LIMITS)
    ensures !Goes(lines, tables, i)
  {
    assert !GoesAlong(lines, tables, i) && !IsDefault(lines, tables, i);
  }

  /** The line of the original that became line `o`. */
  lemma {:induction false} SameLine<V>(lines: seq<Line<V>>, tables: Tables<V>, o: nat) returns (i: nat)
    requires o < |Converted(lines, tables)|
    ensures i < |lines| && !Goes(lines, tables, i) && Converted(lines, tables)[o] == lines[i]
    ensures Section(Converted(lines, tables), o) == Section(lines, i)
    ensures i == Survivors(lines, tables)[o]
  {
    SurvivorsAreExact(lines, tables);
    SectionIsKept(lines, tables, o);
    i := Survivors(lines, tables)[o];
  }

  /** The line of the converted manifest that line `i` became. */
  lemma {:induction false} BecameLine<V>(lines: seq<Line<V>>, tables: Tables<V>, i: nat) returns (o: nat)
    requires i < |lines| && !Goes(lines, tables, i) && lines[i] != Blank
    ensures o < |Converted(lines, tables)| && Survivors(lines, tables)[o] == i
    ensures Converted(lines, tables)[o] == lines[i] && Section(Converted(lines, tables), o) == Section(lines, i)
  {
    SurvivorsAreExact(lines, tables);
    o :| 0 <= o < |Survivors(lines, tables)| && Survivors(lines, tables)[o] == i;
    SectionIsKept(lines, tables, o);
  }

  lemma {:induction false} StatedBefore<V>(lines: seq<Line<V>>, tables: Tables<V>, table: string, key: string, o: int)
    returns (i: nat)
    requires StatesAt(Converted(lines, tables), table, key, o)
    ensures StatesAt(lines, table, key, i) && lines[i] == Converted(lines, tables)[o] && !IsDefault(lines, tables, i)
    ensures i == Survivors(lines, tables)[o]
  {
    i := SameLine(lines, tables, o);
  }

  /** A key its table states at most once means the same before and after, single-line or not. */
  lemma {:induction false} MeaningIsKept<V>(lines: seq<Line<V>>, tables: Tables<V>, table: string, key: string)
    requires Once(lines, table, key)
    ensures MeaningOf(Converted(lines, tables), tables, table, key) == MeaningOf(lines, tables, table, key)
  {
    var out := Converted(lines, tables);
    if i :| StatesAt(lines, table, key, i) {
      if !IsDefault(lines, tables, i) {
        OthersStay(lines, tables, i);
        var o := BecameLine(lines, tables, i);
        assert StatesAt(out, table, key, o);
      }
      forall o | StatesAt(out, table, key, o) ensures out[o] == lines[i] && !IsDefault(lines, tables, i) {
        var j := StatedBefore(lines, tables, table, key, o);
      }
    } else {
      forall o ensures !StatesAt(out, table, key, o) {
        if StatesAt(out, table, key, o) {
          var j := StatedBefore(lines, tables, table, key, o);
        }
      }
    }
  }

  /** A key that was stated at most once still is. */
  lemma {:induction false} ConvertedIsUnique<V>(lines: seq<Line<V>>, tables: Tables<V>, table: string, key: string)
    requires Once(lines, table, key)
    ensures Once(Converted(lines, tables), table, key)
  {
    var out := Converted(lines, tables);
    SurvivorsAreExact(lines, tables);
    forall o, p | StatesAt(out, table, key, o) && StatesAt(out, table, key, p) ensures o == p {
      var i := StatedBefore(lines, tables, table, key, o);
      var j := StatedBefore(lines, tables, table, key, p);
    }
  }

  // ---- repeated keys: the elements of an array of tables ----

  /** What a manifest says beyond its defaults: the stated values, the headers that open tables and
      array elements, and every other line of text. */
  predicate IsSubstance<V(==)>(lines: seq<Line<V>>, tables: Tables<V>, i: nat)
    requires i < |lines|
  {
    || lines[i].Other? || (lines[i].KeyLine? && !IsDefault(lines, tables, i))
    || (lines[i].Header? && lines[i].table != LIMITS)
  }

  /** The substance of the first `n` lines, each with its table, in order. */
  function Substance<V(==)>(lines: seq<Line<V>>, tables: Tables<V>, n: nat): seq<(string, Line<V>)>
    requires n <= |lines|
  {
    if n == 0 then []
    else Substance(lines, tables, n - 1)
         + if IsSubstance(lines, tables, n - 1) then [(Section(lines, n - 1), lines[n - 1])] else []
  }

  lemma {:induction false} SubstanceGap<V>(lines: seq<Line<V>>, tables: Tables<V>, a: nat, b: nat)
    requires a <= b <= |lines| && forall i :: a <= i < b ==> !IsSubstance(lines, tables, i)
    ensures Substance(lines, tables, b) == Substance(lines, tables, a)
    decreases b
  {
    if a < b {
      SubstanceGap(lines, tables, a, b - 1);
    }
  }

  /** A selection of lines, in order, that leaves out no substance. */
  ghost predicate HoldsSubstance<V>(lines: seq<Line<V>>, tables: Tables<V>, at: seq<nat>) {
    && Increasing(at) && Within(at, |lines|)
    && forall i :: 0 <= i < |lines| && IsSubstance(lines, tables, i) ==> i in at
  }

  lemma {:induction false} SurvivorsHoldSubstance<V>(lines: seq<Line<V>>, tables: Tables<V>)
    ensures HoldsSubstance(lines, tables, Survivors(lines, tables))
  {
    SurvivorsAreExact(lines, tables);
    forall i | 0 <= i < |lines| && IsSubstance(lines, tables, i) ensures i in Survivors(lines, tables) {
      OthersStay(lines, tables, i);
    }
  }

  /** Where the lines before the selected line `o` end. */
  function Until<V>(lines: seq<Line<V>>, at: seq<nat>, o: nat): (n: nat)
    requires Within(at, |lines|) && o <= |at|
    ensures n <= |lines|
  {
    if o < |at| then at[o] else |lines|
  }

  lemma {:induction false} BetweenIsNoSubstance<V>(lines: seq<Line<V>>, tables: Tables<V>, at: seq<nat>, o: nat, i: nat)
    requires HoldsSubstance(lines, tables, at) && o <= |at| && i < Until(lines, at, o)
    requires o > 0 ==> at[o - 1] < i
    ensures !IsSubstance(lines, tables, i)
  {
    forall k | 0 <= k < |at| ensures at[k] != i {
      assert k < o ==> at[k] <= at[o - 1];
    }
  }

  lemma {:induction false} Gap<V>(lines: seq<Line<V>>, tables: Tables<V>, at: seq<nat>, o: nat)
    requires HoldsSubstance(lines, tables, at) && o <= |at|
    ensures var from := if o == 0 then 0 else at[o - 1] + 1;
            from <= Until(lines, at, o)
            && Substance(lines, tables, Until(lines, at, o)) == Substance(lines, tables, from)
  {
    var from := if o == 0 then 0 else at[o - 1] + 1;
    forall i | from <= i < Until(lines, at, o) ensures !IsSubstance(lines, tables, i) {
      BetweenIsNoSubstance(lines, tables, at, o, i);
    }
    SubstanceGap(lines, tables, from, Until(lines, at, o));
  }

  lemma {:induction false} SameSubstance<V>(lines: seq<Line<V>>, tables: Tables<V>, o: nat)
    requires o < |Converted(lines, tables)|
    ensures Survivors(lines, tables)[o] < |lines|
    ensures var out, i := Converted(lines, tables), Survivors(lines, tables)[o];
            && (IsSubstance(out, tables, o) <==> IsSubstance(lines, tables, i))
            && out[o] == lines[i] && Section(out, o) == Section(lines, i)
  {
    var i := SameLine(lines, tables, o);
    NoDefaultLeft(lines, tables, o);
  }

  lemma {:induction false} SubstanceNext<V>(lines: seq<Line<V>>, tables: Tables<V>, o: nat, i: nat)
    requires o < |Converted(lines, tables)| && i == Survivors(lines, tables)[o] < |lines|
    requires Substance(Converted(lines, tables), tables, o) == Substance(lines, tables, i)
    ensures Substance(Converted(lines, tables), tables, o + 1) == Substance(lines, tables, i + 1)
  {
    SameSubstance(lines, tables, o);
  }

  lemma {:induction false} SubstanceTo<V>(lines: seq<Line<V>>, tables: Tables<V>, at: seq<nat>, o: nat)
    requires at == Survivors(lines, tables) && HoldsSubstance(lines, tables, at) && o <= |at|
    ensures Substance(Converted(lines, tables), tables, o) == Substance(lines, tables, Until(lines, at, o))
  {
    Gap(lines, tables, at, o);
    if o > 0 {
      SubstanceTo(lines, tables, at, o - 1);
      SubstanceNext(lines, tables, o - 1, at[o - 1]);
    }
  }

  /** For every manifest, repeated keys or not: the stated values, the tables and the array elements
      they stand in, and all other text are the same, in the same order. */
  lemma {:induction false} SubstanceIsKept<V>(lines: seq<Line<V>>, tables: Tables<V>)
    ensures var out := Converted(lines, tables);
            Substance(out, tables, |out|) == Substance(lines, tables, |lines|)
  {
    SurvivorsHoldSubstance(lines, tables);
    SubstanceTo(lines, tables, Survivors(lines, tables), |Converted(lines, tables)|);
  }

  // ---- a second run changes nothing ----

  lemma {:induction false} NoDefaultLeft<V>(lines: seq<Line<V>>, tables: Tables<V>, o: nat)
    requires o < |Converted(lines, tables)|
    ensures !IsDefault(Converted(lines, tables), tables, o)
  {
    var i := SameLine(lines, tables, o);
  }

  /** A line of a table's body that stays is in the body of that table afterwards. */
  lemma {:induction false} BodyStays<V>(lines: seq<Line<V>>, tables: Tables<V>, o: nat, j: nat) returns (p: nat)
    requires o < |Converted(lines, tables)| && j < |lines| && !Goes(lines, tables, j) && lines[j] != Blank
    requires Survivors(lines, tables)[o] < |lines| && InBody(lines, Survivors(lines, tables)[o], j)
    ensures p < |Converted(lines, tables)| && Converted(lines, tables)[p] == lines[j]
    ensures InBody(Converted(lines, tables), o, p)
  {
    p := BecameLine(lines, tables, j);
    SurvivorsAreExact(lines, tables);
    assert p > o;
  }

  /** Below an emptied header that stays, some line stays that is no default, no comment of one and
      no blank. */
  lemma {:induction false} NotEmptied<V>(lines: seq<Line<V>>, tables: Tables<V>, h: nat) returns (j: nat)
    requires h < |lines| && lines[h] == Header(LIMITS) && !Goes(lines, tables, h)
    ensures j < |lines| && InBody(lines, h, j) && !Goes(lines, tables, j) && lines[j] != Blank
  {
    assert !IsEmptied(lines, tables, h);
    j :| && 0 <= j < |lines| && InBody(lines, h, j)
         && !IsDefault(lines, tables, j) && !GoesAlong(lines, tables, j) && lines[j] != Blank;
    assert !Goes(lines, tables, j);
  }

  lemma {:induction false} NoEmptiedLeft<V>(lines: seq<Line<V>>, tables: Tables<V>, o: nat)
    requires o < |Converted(lines, tables)|
    requires forall p :: 0 <= p < |Converted(lines, tables)| ==> !GoesAlong(Converted(lines, tables), tables, p)
    ensures !IsEmptied(Converted(lines, tables), tables, o)
  {
    var out := Converted(lines, tables);
    if out[o] == Header(LIMITS) {
      var h := SameLine(lines, tables, o);
      var j := NotEmptied(lines, tables, h);
      var p := BodyStays(lines, tables, o, j);
      NoDefaultLeft(lines, tables, p);
    }
  }

  lemma {:induction false} NothingGoesTwice<V>(lines: seq<Line<V>>, tables: Tables<V>, o: nat)
    requires o < |Converted(lines, tables)|
    ensures !Goes(Converted(lines, tables), tables, o)
  {
    var out := Converted(lines, tables);
    forall p | 0 <= p < |out| ensures !IsDefault(out, tables, p) {
      NoDefaultLeft(lines, tables, p);
    }
    assert forall p :: 0 <= p < |out| ==> !GoesAlong(out, tables, p);
    forall p | 0 <= p < |out| ensures !IsEmptied(out, tables, p) {
      NoEmptiedLeft(lines, tables, p);
    }
  }

  function UpTo(n: nat): (r: seq<nat>)
    ensures |r| == n && forall i :: 0 <= i < n ==> r[i] == i
  {
    seq(n, i requires 0 <= i < n => i)
  }

  lemma {:induction false} AllKept<V>(lines: seq<Line<V>>, tables: Tables<V>, n: nat)
    requires n <= |lines| && forall i :: 0 <= i < n ==> !Goes(lines, tables, i)
    ensures Kept(lines, tables, n) == UpTo(n)
  {
    if n > 0 {
      AllKept(lines, tables, n - 1);
    }
  }

  /** No blank line first, last, or twice in a row. */
  ghost predicate IsTidy<V>(lines: seq<Line<V>>) {
    && (lines != [] ==> lines[0] != Blank && lines[|lines| - 1] != Blank)
    && forall i :: 0 < i < |lines| ==> lines[i - 1] != Blank || lines[i] != Blank
  }

  lemma {:induction false} UpToNext(n: nat)
    ensures UpTo(n + 1) == UpTo(n) + [n]
  {
  }

  lemma {:induction false} NotDropped<V>(lines: seq<Line<V>>, n: nat)
    requires n < |lines| && IsTidy(lines)
    ensures !(lines[n] == Blank && (UpTo(n) == [] || lines[UpTo(n)[n - 1]] == Blank))
  {
  }

  lemma {:induction false} AlreadyTidy<V>(lines: seq<Line<V>>, n: nat)
    requires n <= |lines| && IsTidy(lines)
    ensures Tidied(lines, UpTo(n)) == UpTo(n)
  {
    if n > 0 {
      AlreadyTidy(lines, n - 1);
      TidiedNext(lines, UpTo(n - 1), n - 1);
      NotDropped(lines, n - 1);
      UpToNext(n - 1);
    }
  }

  lemma {:induction false} TrimmedStays<V>(lines: seq<Line<V>>)
    requires IsTidy(lines)
    ensures Trimmed(lines, UpTo(|lines|)) == UpTo(|lines|)
  {
  }

  lemma {:induction false} SelectAll<V>(lines: seq<Line<V>>)
    ensures Select(lines, UpTo(|lines|)) == lines
  {
  }

  lemma {:induction false} AllSurvive<V>(lines: seq<Line<V>>, tables: Tables<V>)
    requires (forall i :: 0 <= i < |lines| ==> !Goes(lines, tables, i)) && IsTidy(lines)
    ensures Survivors(lines, tables) == UpTo(|lines|)
  {
    AllKept(lines, tables, |lines|);
    AlreadyTidy(lines, |lines|);
    TrimmedStays(lines);
  }

  /** A tidy manifest nothing goes from stays as it is. */
  lemma {:induction false} TidyStays<V>(lines: seq<Line<V>>, tables: Tables<V>)
    requires (forall i :: 0 <= i < |lines| ==> !Goes(lines, tables, i)) && IsTidy(lines)
    ensures Converted(lines, tables) == lines
  {
    AllSurvive(lines, tables);
    SelectAll(lines);
  }

  lemma {:induction false} SelectedIsTidy<V>(lines: seq<Line<V>>, at: seq<nat>)
    requires Within(at, |lines|) && NoBlankRuns(lines, at) && (at != [] ==> lines[at[|at| - 1]] != Blank)
    ensures IsTidy(Select(lines, at))
  {
  }

  lemma {:induction false} ConvertedIsTidy<V>(lines: seq<Line<V>>, tables: Tables<V>)
    ensures IsTidy(Converted(lines, tables))
  {
    SurvivorsAreExact(lines, tables);
    SelectedIsTidy(lines, Survivors(lines, tables));
  }

  /** Converting twice is converting once. */
  lemma {:induction false} ConvertIsIdempotent<V>(lines: seq<Line<V>>, tables: Tables<V>)
    ensures Converted(Converted(lines, tables), tables) == Converted(lines, tables)
  {
    var out := Converted(lines, tables);
    forall o | 0 <= o < |out| ensures !Goes(out, tables, o) {
      NothingGoesTwice(lines, tables, o);
    }
    ConvertedIsTidy(lines, tables);
    TidyStays(out, tables);
  }
}
