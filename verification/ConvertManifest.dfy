/**
 `convert` as the script runs it: one loop after another over the lines, each filling what the
 next one reads. Every loop is proved against the line-by-line rules of `ManifestDefaults`.
 */
module ConvertManifest {
  import opened Wrappers
  import opened ManifestDefaults

  /** A comment that goes along with one of the first `n` lines. */
  ghost predicate AlongOf<V>(lines: seq<Line<V>>, tables: Tables<V>, c: nat, n: nat)
    requires n <= |lines|
  {
    exists i :: c < i < n && Explains(lines, tables, c, i)
  }

  /** A line of a [limits] table that is emptied, with its header among the first `n` lines. */
  ghost predicate EmptiedBy<V>(lines: seq<Line<V>>, tables: Tables<V>, i: nat, n: nat)
    requires i < |lines| && n <= |lines|
  {
    exists h :: 0 <= h < n && IsEmptied(lines, tables, h) && (i == h || InBody(lines, h, i))
  }

  method Sections<V>(lines: seq<Line<V>>) returns (sections: seq<string>)
    ensures |sections| == |lines| && forall i :: 0 <= i < |lines| ==> sections[i] == Section(lines, i)
  {
    sections := [];
    var section := "";
    for n := 0 to |lines|
      invariant |sections| == n && forall i :: 0 <= i < n ==> sections[i] == Section(lines, i)
      invariant section == if n == 0 then "" else Section(lines, n - 1)
    {
      if lines[n].Header? {
        section := lines[n].table;
      }
      sections := sections + [section];
    }
  }

  method DefaultLines<V(==)>(lines: seq<Line<V>>, tables: Tables<V>, sections: seq<string>) returns (removed: set<nat>)
    requires |sections| == |lines| && forall i :: 0 <= i < |lines| ==> sections[i] == Section(lines, i)
    ensures forall i: nat :: i in removed <==> i < |lines| && IsDefault(lines, tables, i)
  {
    removed := {};
    for n := 0 to |lines|
      invariant forall i: nat :: i in removed <==> i < n && IsDefault(lines, tables, i)
    {
      var line := lines[n];
      if line.KeyLine? && States(tables, sections[n], line.key, line.value) {
        removed := removed + {n};
      }
    }
  }

  /** The first line below `index` that is not removed. */
  method NextKept<V(==)>(lines: seq<Line<V>>, tables: Tables<V>, removed: set<nat>, index: nat) returns (j: nat)
    requires index < |lines|
    requires forall i: nat :: index < i < |lines| ==> (i in removed <==> IsDefault(lines, tables, i))
    ensures j == Following(lines, tables, index + 1)
  {
    j := index + 1;
    while j < |lines| && j in removed
      invariant index < j <= |lines|
      invariant Following(lines, tables, j) == Following(lines, tables, index + 1)
    {
      j := j + 1;
    }
  }

  /** There are comments from `c` up to the line `index`, and nothing else. */
  ghost predicate AllComments<V>(lines: seq<Line<V>>, c: nat, index: nat)
    requires index <= |lines|
  {
    c < index && forall j :: c <= j < index ==> lines[j].Comment?
  }

  /** Removes the comments right above a removed line. */
  method CommentsAbove<V(==)>(lines: seq<Line<V>>, removed: set<nat>, index: nat) returns (r: set<nat>)
    requires index < |lines|
    requires forall c: nat :: c in removed && c < index && lines[c].Comment? ==> !AllComments(lines, c, index)
    ensures forall c: nat :: c in r <==> c in removed || AllComments(lines, c, index)
  {
    r := removed;
    var above := index - 1;
    while above >= 0 && lines[above].Comment? && above !in r
      invariant -1 <= above < index && forall j :: above < j < index ==> lines[j].Comment?
      invariant forall c: nat :: c in r <==> c in removed || above < c < index
      decreases above
    {
      r := r + {above};
      above := above - 1;
    }
    assert above >= 0 ==> !AllComments(lines, above, index);
    assert above >= 0 ==> !lines[above].Comment?;
  }

  method ExplainingComments<V(==)>(lines: seq<Line<V>>, tables: Tables<V>, sections: seq<string>, defaults: set<nat>)
    returns (removed: set<nat>)
    requires |sections| == |lines| && forall i :: 0 <= i < |lines| ==> sections[i] == Section(lines, i)
    requires forall i: nat :: i in defaults <==> i < |lines| && IsDefault(lines, tables, i)
    ensures forall i: nat :: i in removed <==>
              i < |lines| && (IsDefault(lines, tables, i) || GoesAlong(lines, tables, i))
  {
    removed := defaults;
    for n := 0 to |lines|
      invariant forall i: nat :: i in removed <==>
                  i < |lines| && (IsDefault(lines, tables, i) || AlongOf(lines, tables, i, n))
    {
      if n in defaults {
        var f := NextKept(lines, tables, removed, n);
        if !(f < |lines| && lines[f].KeyLine? && sections[f] == sections[n]) {
          forall c: nat | c in removed && c < n && lines[c].Comment? ensures !AllComments(lines, c, n) {
            var i :| c < i < n && Explains(lines, tables, c, i);
            assert !lines[i].Comment?;
          }
          removed := CommentsAbove(lines, removed, n);
        }
      }
      forall c: nat | c < |lines|
        ensures AlongOf(lines, tables, c, n + 1)
           <==> AlongOf(lines, tables, c, n) || (c < n && Explains(lines, tables, c, n)) {}
    }
  }

  lemma {:induction false} EmptiedLine<V>(lines: seq<Line<V>>, tables: Tables<V>, i: nat, n: nat)
    requires i < |lines| && n <= |lines| && EmptiedBy(lines, tables, i, n) && !lines[i].Header?
    ensures IsDefault(lines, tables, i) || GoesAlong(lines, tables, i) || lines[i] == Blank
  {
  }

  lemma {:induction false} EmptiedNext<V>(lines: seq<Line<V>>, tables: Tables<V>, i: nat, n: nat)
    requires i < |lines| && n < |lines|
    ensures EmptiedBy(lines, tables, i, n + 1)
       <==> EmptiedBy(lines, tables, i, n) || (IsEmptied(lines, tables, n) && (i == n || InBody(lines, n, i)))
  {
  }

  method EmptiedLimits<V(==)>(lines: seq<Line<V>>, tables: Tables<V>, sections: seq<string>, gone: set<nat>)
    returns (removed: set<nat>)
    requires |sections| == |lines| && forall i :: 0 <= i < |lines| ==> sections[i] == Section(lines, i)
    requires forall i: nat :: i in gone <==> i < |lines| && (IsDefault(lines, tables, i) || GoesAlong(lines, tables, i))
    ensures forall i: nat :: i in removed <==> i < |lines| && Goes(lines, tables, i)
  {
    removed := gone;
    for n := 0 to |lines|
      invariant forall i: nat :: i in removed <==> i in gone || (i < |lines| && EmptiedBy(lines, tables, i, n))
    {
      var body := set j: nat | n < j < |lines| && sections[j] == LIMITS && !lines[j].Header?;
      assert forall j: nat :: j in body <==> j < |lines| && InBody(lines, n, j);
      forall j | j in body ensures j in removed || lines[j] == Blank
          <==> IsDefault(lines, tables, j) || GoesAlong(lines, tables, j) || lines[j] == Blank {
        if EmptiedBy(lines, tables, j, n) {
          EmptiedLine(lines, tables, j, n);
        }
      }
      forall i: nat | i < |lines|
        ensures EmptiedBy(lines, tables, i, n + 1)
           <==> EmptiedBy(lines, tables, i, n) || (IsEmptied(lines, tables, n) && (i == n || InBody(lines, n, i)))
      {
        EmptiedNext(lines, tables, i, n);
      }
      if lines[n] == Header(LIMITS) && forall j <- body :: j in removed || lines[j] == Blank {
        removed := removed + {n} + body;
      }
    }
    forall i: nat | i < |lines| ensures Goes(lines, tables, i)
        <==> IsDefault(lines, tables, i) || GoesAlong(lines, tables, i) || EmptiedBy(lines, tables, i, |lines|) {}
  }

  /** `tidy` is the lines at the indexes `at`. */
  ghost predicate Are<V>(lines: seq<Line<V>>, at: seq<nat>, tidy: seq<Line<V>>) {
    |tidy| == |at| && forall i :: 0 <= i < |at| ==> at[i] < |lines| && tidy[i] == lines[at[i]]
  }

  lemma {:induction false} KeptNext<V>(lines: seq<Line<V>>, tables: Tables<V>, n: nat)
    requires n < |lines|
    ensures Kept(lines, tables, n + 1)
         == if Goes(lines, tables, n) then Kept(lines, tables, n) else Kept(lines, tables, n) + [n]
    ensures Within(Kept(lines, tables, n), |lines|) && Within(Kept(lines, tables, n + 1), |lines|)
  {
    KeptIsExact(lines, tables, n);
    KeptIsExact(lines, tables, n + 1);
  }

  /** `at` and `tidy` are what the lines before `n` leave. */
  ghost predicate TidyTo<V>(lines: seq<Line<V>>, tables: Tables<V>, n: nat, at: seq<nat>, tidy: seq<Line<V>>)
    requires n <= |lines|
  {
    var kept := Kept(lines, tables, n);
    Within(kept, |lines|) && at == Tidied(lines, kept) && Are(lines, at, tidy)
  }

  lemma {:induction false} AreNext<V>(lines: seq<Line<V>>, at: seq<nat>, tidy: seq<Line<V>>, n: nat)
    requires n < |lines| && Are(lines, at, tidy)
    ensures Are(lines, at + [n], tidy + [lines[n]])
    ensures |at| == |tidy| && (at != [] ==> at[|at| - 1] < |lines| && lines[at[|at| - 1]] == tidy[|at| - 1])
  {
  }

  lemma {:induction false} TidyNext<V>(lines: seq<Line<V>>, tables: Tables<V>, n: nat,
                                       at: seq<nat>, tidy: seq<Line<V>>)
    requires n < |lines| && TidyTo(lines, tables, n, at, tidy)
    ensures Goes(lines, tables, n) ==> TidyTo(lines, tables, n + 1, at, tidy)
  {
    KeptNext(lines, tables, n);
  }

  lemma {:induction false} TidiedKept<V>(lines: seq<Line<V>>, tables: Tables<V>, n: nat)
    requires n < |lines| && !Goes(lines, tables, n)
    ensures Within(Kept(lines, tables, n), |lines|) && Within(Kept(lines, tables, n + 1), |lines|)
    ensures Tidied(lines, Kept(lines, tables, n + 1)) == var r := Tidied(lines, Kept(lines, tables, n));
              if lines[n] == Blank && (r == [] || lines[r[|r| - 1]] == Blank) then r else r + [n]
  {
    KeptNext(lines, tables, n);
    TidiedNext(lines, Kept(lines, tables, n), n);
  }

  lemma {:induction false} LineStays<V>(lines: seq<Line<V>>, tables: Tables<V>, n: nat,
                                        at: seq<nat>, tidy: seq<Line<V>>)
    requires n < |lines| && TidyTo(lines, tables, n, at, tidy) && !Goes(lines, tables, n)
    ensures
      if lines[n] == Blank && (tidy == [] || tidy[|tidy| - 1] == Blank)
      then TidyTo(lines, tables, n + 1, at, tidy)
      else TidyTo(lines, tables, n + 1, at + [n], tidy + [lines[n]])
  {
    TidiedKept(lines, tables, n);
    AreNext(lines, at, tidy, n);
  }

  /** The lines that stay, without a blank line first or twice in a row. */
  method TidyLines<V(==)>(lines: seq<Line<V>>, tables: Tables<V>, removed: set<nat>)
    returns (tidy: seq<Line<V>>, ghost at: seq<nat>)
    requires forall i: nat :: i in removed <==> i < |lines| && Goes(lines, tables, i)
    ensures TidyTo(lines, tables, |lines|, at, tidy)
  {
    tidy, at := [], [];
    for n := 0 to |lines|
      invariant TidyTo(lines, tables, n, at, tidy)
    {
      TidyNext(lines, tables, n, at, tidy);
      if n !in removed {
        LineStays(lines, tables, n, at, tidy);
        if !(lines[n] == Blank && (tidy == [] || tidy[|tidy| - 1] == Blank)) {
          tidy, at := tidy + [lines[n]], at + [n];
        }
      }
    }
  }

  /** Without a blank line last. */
  method TrimLines<V(==)>(lines: seq<Line<V>>, tidy: seq<Line<V>>, ghost at: seq<nat>) returns (r: seq<Line<V>>)
    requires Are(lines, at, tidy)
    ensures Are(lines, Trimmed(lines, at), r)
  {
    r := tidy;
    ghost var now := at;
    while r != [] && r[|r| - 1] == Blank
      invariant Are(lines, now, r) && Trimmed(lines, now) == Trimmed(lines, at)
      decreases |r|
    {
      r, now := r[..|r| - 1], now[..|now| - 1];
    }
  }

  method Convert<V(==)>(lines: seq<Line<V>>, tables: Tables<V>) returns (tidy: seq<Line<V>>)
    ensures tidy == Converted(lines, tables)
  {
    var sections := Sections(lines);
    var removed := DefaultLines(lines, tables, sections);
    removed := ExplainingComments(lines, tables, sections, removed);
    removed := EmptiedLimits(lines, tables, sections, removed);
    ghost var at;
    tidy, at := TidyLines(lines, tables, removed);
    tidy := TrimLines(lines, tidy, at);
    assert Trimmed(lines, at) == Survivors(lines, tables);
  }
}
