/**
 * Reading a grade sheet: each row holds a semester, a teaching unit (UE),
 * a module name, a number of credits and a note. Rows with no note, or
 * whose credits or note do not parse, are skipped; the others are grouped
 * by semester, then by UE, both in the order of their first accepted
 * occurrence; each group is reduced to its credit-weighted average.
 *
 * Opening the file and splitting lines at `;` are not modelled: the input
 * is the sequence of rows already split into fields. The integer and real
 * parsers are parameters, each failing with `None`.
 */
module GradeSheet {
  import opened Wrappers
  import opened OrderedMaps
  import opened WeightedAverages

  /** Fields per row: semester, UE, module, credits, note. */
  const FieldCount := 5

  type Row = seq<string>

  /** An accepted row: credits and note parsed, the module name dropped. */
  datatype Entry = Entry(semester: string, ue: string, credits: int, note: real)

  /** The parallel `credits` and `notes` lists of one UE. */
  datatype Group = Group(credits: seq<int>, notes: seq<real>)

  /** Unpacking a row that does not hold exactly five fields aborts the read. */
  datatype ReadError = MalformedRow(index: nat)

  /** semester -> UE -> group, both levels in insertion order. */
  type Groups = OrderedMap<string, OrderedMap<string, Group>>

  /** semester -> UE -> weighted average, both levels in insertion order. */
  type Averages = OrderedMap<string, OrderedMap<string, real>>

  predicate WellFormed(rows: seq<Row>) {
    forall i :: 0 <= i < |rows| ==> |rows[i]| == FieldCount
  }

  /** The first row that cannot be unpacked into five fields is row `i`. */
  predicate FirstMalformed(rows: seq<Row>, i: nat) {
    i < |rows| && |rows[i]| != FieldCount && WellFormed(rows[..i])
  }

  /** What one row contributes: nothing when its note is empty or a parse fails. */
  function Accept(row: Row, parseCredits: string -> Option<int>, parseNote: string -> Option<real>): (r: Option<Entry>)
    requires |row| == FieldCount
    ensures r.None? <==> row[4] == "" || parseCredits(row[3]).None? || parseNote(row[4]).None?
    ensures r.Some? ==> r.value == Entry(row[0], row[1], parseCredits(row[3]).value, parseNote(row[4]).value)
  {
    var semester, ue, creditsText, noteText := row[0], row[1], row[3], row[4];
    if noteText == "" then None
    else
      match (parseCredits(creditsText), parseNote(noteText))
      case (Some(credits), Some(note)) => Some(Entry(semester, ue, credits, note))
      case _ => None
  }

  function AsSeq(x: Option<Entry>): seq<Entry> {
    match x
    case Some(entry) => [entry]
    case None => []
  }

  /** The accepted rows, in input order. */
  function Accepted(rows: seq<Row>, parseCredits: string -> Option<int>, parseNote: string -> Option<real>): seq<Entry>
    requires WellFormed(rows)
  {
    if rows == [] then []
    else Accepted(rows[..|rows| - 1], parseCredits, parseNote) + AsSeq(Accept(rows[|rows| - 1], parseCredits, parseNote))
  }

  /** The semester of every entry, in order. */
  function SemesterLabels(entries: seq<Entry>): (labels: seq<string>)
    ensures |labels| == |entries|
    ensures forall j :: 0 <= j < |entries| ==> labels[j] == entries[j].semester
  {
    seq(|entries|, j requires 0 <= j < |entries| => entries[j].semester)
  }

  /** The UE of every entry of semester `s`, in order. */
  function UeLabels(entries: seq<Entry>, s: string): seq<string> {
    if entries == [] then []
    else
      var last := entries[|entries| - 1];
      var earlier := UeLabels(entries[..|entries| - 1], s);
      if last.semester == s then earlier + [last.ue] else earlier
  }

  /** The semesters, in order of first occurrence. */
  function Semesters(entries: seq<Entry>): seq<string> {
    FirstSeen(SemesterLabels(entries))
  }

  /** The UEs of semester `s`, in order of first occurrence. */
  function UesOf(entries: seq<Entry>, s: string): seq<string> {
    FirstSeen(UeLabels(entries, s))
  }

  predicate InGroup(x: Entry, s: string, u: string) {
    x.semester == s && x.ue == u
  }

  /** The credits and notes of the entries of UE `u` of semester `s`, in order. */
  function GroupOf(entries: seq<Entry>, s: string, u: string): Group {
    if entries == [] then Group([], [])
    else
      var last := entries[|entries| - 1];
      var earlier := GroupOf(entries[..|entries| - 1], s, u);
      if InGroup(last, s, u) then Group(earlier.credits + [last.credits], earlier.notes + [last.note])
      else earlier
  }

  /** The positions of the entries of UE `u` of semester `s`: all of them, each once, in order. */
  function MatchIndices(entries: seq<Entry>, s: string, u: string): (r: seq<nat>)
    ensures forall k :: 0 <= k < |r| ==> r[k] < |entries| && InGroup(entries[r[k]], s, u)
    ensures forall k, l :: 0 <= k < l < |r| ==> r[k] < r[l]
    ensures forall j :: 0 <= j < |entries| && InGroup(entries[j], s, u) ==> j in r
  {
    if entries == [] then []
    else
      var n := |entries| - 1;
      var earlier := MatchIndices(entries[..n], s, u);
      if InGroup(entries[n], s, u) then earlier + [n] else earlier
  }

  /** Nested dictionaries hold a valid dictionary at every semester. */
  ghost predicate NestedValid<V>(g: OrderedMap<string, OrderedMap<string, V>>) {
    g.Valid() && forall s :: s in g.values ==> g.values[s].Valid()
  }

  /**
   * `g` is what grouping `entries` yields: the semesters and, per semester,
   * the UEs in first-seen order, and for each UE its group.
   */
  ghost predicate Describes(g: Groups, entries: seq<Entry>) {
    && NestedValid(g)
    && g.keys == Semesters(entries)
    && forall s :: s in g.values ==>
         && g.values[s].keys == UesOf(entries, s)
         && forall u :: u in g.values[s].values ==> g.values[s].values[u] == GroupOf(entries, s, u)
  }

  /**
   * `a` is what averaging the groups of `entries` yields: the same keys in
   * the same order, each UE mapped to the weighted average of its group.
   */
  ghost predicate Reports(a: Averages, entries: seq<Entry>) {
    && NestedValid(a)
    && a.keys == Semesters(entries)
    && forall s :: s in a.values ==>
         && a.values[s].keys == UesOf(entries, s)
         && forall u :: u in a.values[s].values ==>
              a.values[s].values[u] == WeightedAverage(GroupOf(entries, s, u).credits, GroupOf(entries, s, u).notes)
  }

  /**
   * Adding one accepted row: create the semester's dictionary and the UE's
   * group when missing, then append the credits and the note.
   */
  function AddEntry(g: Groups, x: Entry): (r: Groups)
    requires NestedValid(g)
    ensures NestedValid(r)
    ensures r.keys == if x.semester in g.values then g.keys else g.keys + [x.semester]
    ensures r.values.Keys == g.values.Keys + {x.semester}
    ensures forall s :: s in g.values && s != x.semester ==> r.values[s] == g.values[s]
    ensures var before := if x.semester in g.values then g.values[x.semester] else EmptyMap();
            && r.values[x.semester].keys == (if x.ue in before.values then before.keys else before.keys + [x.ue])
            && r.values[x.semester].values.Keys == before.values.Keys + {x.ue}
            && (forall u :: u in before.values && u != x.ue ==> r.values[x.semester].values[u] == before.values[u])
            && var group := if x.ue in before.values then before.values[x.ue] else Group([], []);
               r.values[x.semester].values[x.ue] == Group(group.credits + [x.credits], group.notes + [x.note])
  {
    var ues := if x.semester in g.values then g.values[x.semester] else EmptyMap();
    var group := if x.ue in ues.values then ues.values[x.ue] else Group([], []);
    g.Put(x.semester, ues.Put(x.ue, Group(group.credits + [x.credits], group.notes + [x.note])))
  }

  /** The first loop of the read: group the accepted rows, or abort at the first malformed row. */
  method GroupRows(rows: seq<Row>, parseCredits: string -> Option<int>, parseNote: string -> Option<real>)
    returns (r: Result<Groups, ReadError>)
    ensures r.Err? <==> !WellFormed(rows)
    ensures r.Err? ==> FirstMalformed(rows, r.error.index)
    ensures r.Ok? ==> WellFormed(rows) && Describes(r.value, Accepted(rows, parseCredits, parseNote))
  {
    var groups: Groups := EmptyMap();
    var i := 0;
    while i < |rows|
      invariant 0 <= i <= |rows|
      invariant WellFormed(rows[..i])
      invariant Describes(groups, Accepted(rows[..i], parseCredits, parseNote))
    {
      var row := rows[i];
      if |row| != FieldCount {
        return Err(MalformedRow(i));
      }
      assert rows[..i + 1] == rows[..i] + [row];
      var accepted := Accepted(rows[..i], parseCredits, parseNote);
      AcceptedStep(rows, i, parseCredits, parseNote);
      match Accept(row, parseCredits, parseNote) {
        case Some(x) =>
          AddEntryDescribes(groups, accepted, x);
          groups := AddEntry(groups, x);
        case None =>
          assert accepted + AsSeq(None) == accepted;
      }
      i := i + 1;
    }
    assert rows[..i] == rows;
    return Ok(groups);
  }

  /** The second loop of the read: replace every group by its weighted average, keeping the order. */
  method AverageGroups(groups: Groups) returns (averages: Averages)
    requires NestedValid(groups)
    ensures NestedValid(averages)
    ensures averages.keys == groups.keys
    ensures forall s :: s in averages.values ==>
              && averages.values[s].keys == groups.values[s].keys
              && forall u :: u in averages.values[s].values ==>
                   averages.values[s].values[u] == WeightedAverage(groups.values[s].values[u].credits, groups.values[s].values[u].notes)
  {
    averages := EmptyMap();
    for i := 0 to |groups.keys|
      invariant NestedValid(averages)
      invariant averages.keys == groups.keys[..i]
      invariant forall s :: s in averages.values ==>
                  && averages.values[s].keys == groups.values[s].keys
                  && forall u :: u in averages.values[s].values ==>
                       averages.values[s].values[u] == WeightedAverage(groups.values[s].values[u].credits, groups.values[s].values[u].notes)
    {
      var semester := groups.keys[i];
      var ueAverages := AverageUes(groups.values[semester]);
      assert semester !in groups.keys[..i];
      averages := averages.Put(semester, ueAverages);
      assert groups.keys[..i + 1] == groups.keys[..i] + [semester];
    }
    assert groups.keys[..|groups.keys|] == groups.keys;
  }

  /** The inner loop of the second loop: the weighted average of every UE of one semester, in order. */
  method AverageUes(ues: OrderedMap<string, Group>) returns (ueAverages: OrderedMap<string, real>)
    requires ues.Valid()
    ensures ueAverages.Valid()
    ensures ueAverages.keys == ues.keys
    ensures forall u :: u in ueAverages.values ==>
              ueAverages.values[u] == WeightedAverage(ues.values[u].credits, ues.values[u].notes)
  {
    ueAverages := EmptyMap();
    for j := 0 to |ues.keys|
      invariant ueAverages.Valid()
      invariant ueAverages.keys == ues.keys[..j]
      invariant forall u :: u in ueAverages.values ==>
                  u in ues.values && ueAverages.values[u] == WeightedAverage(ues.values[u].credits, ues.values[u].notes)
    {
      var ue := ues.keys[j];
      var group := ues.values[ue];
      var average := WeightedAverage(group.credits, group.notes);
      assert ue !in ues.keys[..j];
      ueAverages := ueAverages.Put(ue, average);
      assert ues.keys[..j + 1] == ues.keys[..j] + [ue];
    }
    assert ues.keys[..|ues.keys|] == ues.keys;
  }

  /**
   * Reading the whole sheet: the weighted average of every UE of every
   * semester, or the position of the first row that cannot be unpacked.
   */
  method ReadAverages(rows: seq<Row>, parseCredits: string -> Option<int>, parseNote: string -> Option<real>)
    returns (r: Result<Averages, ReadError>)
    ensures r.Err? <==> !WellFormed(rows)
    ensures r.Err? ==> FirstMalformed(rows, r.error.index)
    ensures r.Ok? ==> WellFormed(rows) && Reports(r.value, Accepted(rows, parseCredits, parseNote))
  {
    var grouped := GroupRows(rows, parseCredits, parseNote);
    if grouped.Err? {
      return Err(grouped.error);
    }
    var averages := AverageGroups(grouped.value);
    return Ok(averages);
  }

  // ---------------------------------------------------------------------
  // Lemmas about the grouping

  /** The accepted prefix grows by what the next row contributes. */
  lemma AcceptedStep(rows: seq<Row>, i: nat, parseCredits: string -> Option<int>, parseNote: string -> Option<real>)
    requires i < |rows| && WellFormed(rows[..i + 1])
    ensures WellFormed(rows[..i]) && |rows[i]| == FieldCount
    ensures Accepted(rows[..i + 1], parseCredits, parseNote) ==
              Accepted(rows[..i], parseCredits, parseNote) + AsSeq(Accept(rows[i], parseCredits, parseNote))
  {
    assert rows[..i + 1][..i] == rows[..i];
    assert rows[..i + 1][i] == rows[i];
  }

  /** A UE label of semester `s` is exactly the UE of some entry of `s`. */
  lemma {:induction false} UeLabelsOccur(entries: seq<Entry>, s: string, u: string)
    ensures u in UeLabels(entries, s) <==> exists j :: 0 <= j < |entries| && InGroup(entries[j], s, u)
  {
    if entries != [] {
      var n := |entries| - 1;
      UeLabelsOccur(entries[..n], s, u);
      if exists j :: 0 <= j < n && InGroup(entries[..n][j], s, u) {
        var j :| 0 <= j < n && InGroup(entries[..n][j], s, u);
        assert InGroup(entries[j], s, u);
      }
      if exists j :: 0 <= j < |entries| && InGroup(entries[j], s, u) {
        var j :| 0 <= j < |entries| && InGroup(entries[j], s, u);
        if j < n {
          assert InGroup(entries[..n][j], s, u);
        }
      }
    }
  }

  /** Without any entry of semester `s`, there is no UE label for it. */
  lemma {:induction false} UeLabelsAbsent(entries: seq<Entry>, s: string)
    requires forall j :: 0 <= j < |entries| ==> entries[j].semester != s
    ensures UeLabels(entries, s) == []
  {
    if entries != [] {
      var n := |entries| - 1;
      assert forall j :: 0 <= j < n ==> entries[..n][j] == entries[j];
      UeLabelsAbsent(entries[..n], s);
    }
  }

  /** Without any entry of the group, the group is empty. */
  lemma {:induction false} GroupOfAbsent(entries: seq<Entry>, s: string, u: string)
    requires forall j :: 0 <= j < |entries| ==> !InGroup(entries[j], s, u)
    ensures GroupOf(entries, s, u) == Group([], [])
  {
    if entries != [] {
      var n := |entries| - 1;
      assert forall j :: 0 <= j < n ==> entries[..n][j] == entries[j];
      GroupOfAbsent(entries[..n], s, u);
    }
  }

  /** Appending an entry appends its semester if it is new. */
  lemma SemestersAppend(entries: seq<Entry>, x: Entry)
    ensures Semesters(entries + [x]) ==
              if x.semester in Semesters(entries) then Semesters(entries) else Semesters(entries) + [x.semester]
  {
    var labels := SemesterLabels(entries + [x]);
    assert labels == SemesterLabels(entries) + [x.semester];
    assert labels[..|entries|] == SemesterLabels(entries);
  }

  /** Appending an entry appends its UE to its own semester if the UE is new there. */
  lemma UesOfAppend(entries: seq<Entry>, x: Entry, s: string)
    ensures UesOf(entries + [x], s) ==
              if s == x.semester && x.ue !in UesOf(entries, s) then UesOf(entries, s) + [x.ue] else UesOf(entries, s)
  {
    var more := entries + [x];
    assert more[..|entries|] == entries;
    var labels := UeLabels(entries, s);
    if s == x.semester {
      assert UeLabels(more, s) == labels + [x.ue];
      assert (labels + [x.ue])[..|labels|] == labels;
    } else {
      assert UeLabels(more, s) == labels;
    }
  }

  /** Appending an entry appends its credits and note to its own group only. */
  lemma GroupOfAppend(entries: seq<Entry>, x: Entry, s: string, u: string)
    ensures GroupOf(entries + [x], s, u) ==
              if InGroup(x, s, u) then Group(GroupOf(entries, s, u).credits + [x.credits], GroupOf(entries, s, u).notes + [x.note])
              else GroupOf(entries, s, u)
  {
    assert (entries + [x])[..|entries|] == entries;
  }

  /** A semester with no entry has no UE. */
  lemma UesOfAbsent(entries: seq<Entry>, s: string)
    requires s !in Semesters(entries)
    ensures UesOf(entries, s) == []
  {
    forall j | 0 <= j < |entries| ensures entries[j].semester != s {
      assert SemesterLabels(entries)[j] in SemesterLabels(entries);
    }
    UeLabelsAbsent(entries, s);
  }

  /** A UE not listed for a semester has an empty group there. */
  lemma GroupOfUnlisted(entries: seq<Entry>, s: string, u: string)
    requires u !in UesOf(entries, s)
    ensures GroupOf(entries, s, u) == Group([], [])
  {
    UeLabelsOccur(entries, s, u);
    GroupOfAbsent(entries, s, u);
  }

  /** Grouping one more accepted row keeps the grouping correct. */
  lemma AddEntryDescribes(g: Groups, entries: seq<Entry>, x: Entry)
    requires Describes(g, entries)
    ensures Describes(AddEntry(g, x), entries + [x])
  {
    SemestersAppend(entries, x);
    var h := AddEntry(g, x);
    forall s | s in h.values
      ensures h.values[s].Valid()
      ensures h.values[s].keys == UesOf(entries + [x], s)
      ensures forall u :: u in h.values[s].values ==> h.values[s].values[u] == GroupOf(entries + [x], s, u)
    {
      AddEntryAt(g, entries, x, s);
    }
  }

  /** The same, for the dictionary of one semester. */
  lemma AddEntryAt(g: Groups, entries: seq<Entry>, x: Entry, s: string)
    requires Describes(g, entries)
    requires s in AddEntry(g, x).values
    ensures AddEntry(g, x).values[s].Valid()
    ensures AddEntry(g, x).values[s].keys == UesOf(entries + [x], s)
    ensures forall u :: u in AddEntry(g, x).values[s].values ==>
              AddEntry(g, x).values[s].values[u] == GroupOf(entries + [x], s, u)
  {
    var h := AddEntry(g, x);
    UesOfAppend(entries, x, s);
    if s != x.semester {
      assert h.values[s] == g.values[s];
      forall u | u in h.values[s].values
        ensures h.values[s].values[u] == GroupOf(entries + [x], s, u)
      {
        GroupOfAppend(entries, x, s, u);
      }
    } else {
      var ues := if s in g.values then g.values[s] else EmptyMap();
      if s !in g.values {
        UesOfAbsent(entries, s);
      }
      assert ues.keys == UesOf(entries, s);
      forall u | u in ues.values ensures ues.values[u] == GroupOf(entries, s, u) {
      }
      forall u | u in h.values[s].values
        ensures h.values[s].values[u] == GroupOf(entries + [x], s, u)
      {
        GroupOfAppend(entries, x, s, u);
        if u != x.ue {
          assert h.values[s].values[u] == ues.values[u];
        } else {
          var group := if u in ues.values then ues.values[u] else Group([], []);
          if u !in ues.values {
            GroupOfUnlisted(entries, s, u);
          }
          assert group == GroupOf(entries, s, u);
          assert h.values[s].values[u] == Group(group.credits + [x.credits], group.notes + [x.note]);
        }
      }
    }
  }

  // ---------------------------------------------------------------------
  // What the read promises

  /** A semester is listed exactly when some entry carries it. */
  lemma SemestersExactly(entries: seq<Entry>, s: string)
    ensures s in Semesters(entries) <==> exists j :: 0 <= j < |entries| && entries[j].semester == s
  {
    var labels := SemesterLabels(entries);
    if exists j :: 0 <= j < |entries| && entries[j].semester == s {
      var j :| 0 <= j < |entries| && entries[j].semester == s;
      assert labels[j] in labels;
    }
  }

  /** A UE is listed under a semester exactly when some entry carries both. */
  lemma UesExactly(entries: seq<Entry>, s: string, u: string)
    ensures u in UesOf(entries, s) <==> exists j :: 0 <= j < |entries| && InGroup(entries[j], s, u)
  {
    UeLabelsOccur(entries, s, u);
  }

  /**
   * Semesters are listed in the order of their first entries: when `a` is
   * listed before `b`, some entry of `a` comes before every entry of `b`.
   */
  lemma SemestersInFirstSeenOrder(entries: seq<Entry>, i: nat, j: nat)
    requires i < j < |Semesters(entries)|
    ensures exists k :: 0 <= k < |entries| && entries[k].semester == Semesters(entries)[i] &&
              forall l :: 0 <= l <= k ==> entries[l].semester != Semesters(entries)[j]
  {
    var labels := SemesterLabels(entries);
    var a, b := Semesters(entries)[i], Semesters(entries)[j];
    FirstSeenOrder(labels, i, j);
    var k, m := IndexOf(labels, a), IndexOf(labels, b);
    forall l | 0 <= l <= k ensures entries[l].semester != b {
      assert labels[..m][l] == labels[l];
    }
  }

  /**
   * Within a semester, UEs are listed in the order of their first entries:
   * when `a` is listed before `b` under `s`, some entry of (`s`, `a`) comes
   * before every entry of (`s`, `b`).
   */
  lemma {:induction false} UesInFirstSeenOrder(entries: seq<Entry>, s: string, i: nat, j: nat)
    requires i < j < |UesOf(entries, s)|
    ensures exists k :: 0 <= k < |entries| && InGroup(entries[k], s, UesOf(entries, s)[i]) &&
              forall l :: 0 <= l <= k ==> !InGroup(entries[l], s, UesOf(entries, s)[j])
  {
    var n := |entries| - 1;
    var prefix := entries[..n];
    var x := entries[n];
    assert entries == prefix + [x];
    UesOfAppend(prefix, x, s);
    var earlier := UesOf(prefix, s);
    var a, b := UesOf(entries, s)[i], UesOf(entries, s)[j];
    assert a == earlier[i];
    if j < |earlier| {
      assert b == earlier[j];
      UesInFirstSeenOrder(prefix, s, i, j);
      var k :| 0 <= k < n && InGroup(prefix[k], s, a) &&
               forall l :: 0 <= l <= k ==> !InGroup(prefix[l], s, b);
      assert InGroup(entries[k], s, a);
      forall l | 0 <= l <= k ensures !InGroup(entries[l], s, b) {
        assert entries[l] == prefix[l];
      }
    } else {
      assert b == x.ue && b !in earlier;
      assert a in earlier;
      UesExactly(prefix, s, a);
      UesExactly(prefix, s, b);
      var k :| 0 <= k < n && InGroup(prefix[k], s, a);
      assert InGroup(entries[k], s, a);
      forall l | 0 <= l <= k ensures !InGroup(entries[l], s, b) {
        assert entries[l] == prefix[l];
      }
    }
  }

  /**
   * The two lists of a group stay parallel: position `k` of both holds the
   * credits and the note of the same entry, the `k`-th of the group in input order.
   */
  lemma {:induction false} GroupOfAligned(entries: seq<Entry>, s: string, u: string)
    ensures |GroupOf(entries, s, u).credits| == |MatchIndices(entries, s, u)|
    ensures |GroupOf(entries, s, u).notes| == |MatchIndices(entries, s, u)|
    ensures forall k :: 0 <= k < |MatchIndices(entries, s, u)| ==>
              && GroupOf(entries, s, u).credits[k] == entries[MatchIndices(entries, s, u)[k]].credits
              && GroupOf(entries, s, u).notes[k] == entries[MatchIndices(entries, s, u)[k]].note
  {
    if entries != [] {
      var n := |entries| - 1;
      GroupOfAligned(entries[..n], s, u);
      var indices := MatchIndices(entries[..n], s, u);
      assert forall k :: 0 <= k < |indices| ==> entries[..n][indices[k]] == entries[indices[k]];
    }
  }

  /** Reading consecutive parts of the input accepts their rows in the same order. */
  lemma {:induction false} AcceptedConcat(a: seq<Row>, b: seq<Row>, parseCredits: string -> Option<int>, parseNote: string -> Option<real>)
    requires WellFormed(a) && WellFormed(b)
    ensures WellFormed(a + b)
    ensures Accepted(a + b, parseCredits, parseNote) == Accepted(a, parseCredits, parseNote) + Accepted(b, parseCredits, parseNote)
  {
    if b == [] {
      assert a + b == a;
    } else {
      var n := |b| - 1;
      assert (a + b)[..|a + b| - 1] == a + b[..n];
      AcceptedConcat(a, b[..n], parseCredits, parseNote);
    }
  }

  /**
   * A row with an empty note, or whose credits or note do not parse, changes
   * nothing: the input without it reads the same.
   */
  lemma RejectedRowIgnored(a: seq<Row>, row: Row, b: seq<Row>, parseCredits: string -> Option<int>, parseNote: string -> Option<real>)
    requires WellFormed(a) && WellFormed(b) && |row| == FieldCount
    requires row[4] == "" || parseCredits(row[3]).None? || parseNote(row[4]).None?
    ensures WellFormed(a + [row] + b)
    ensures Accepted(a + [row] + b, parseCredits, parseNote) == Accepted(a + b, parseCredits, parseNote)
  {
    assert [row][..0] == [];
    AcceptedConcat(a, [row], parseCredits, parseNote);
    AcceptedConcat(a + [row], b, parseCredits, parseNote);
    AcceptedConcat(a, b, parseCredits, parseNote);
  }

  /** An entry is accepted exactly when some row yields it. */
  lemma {:induction false} AcceptedOccur(rows: seq<Row>, parseCredits: string -> Option<int>, parseNote: string -> Option<real>, x: Entry)
    requires WellFormed(rows)
    ensures x in Accepted(rows, parseCredits, parseNote) <==>
              exists i :: 0 <= i < |rows| && Accept(rows[i], parseCredits, parseNote) == Some(x)
  {
    if rows != [] {
      var n := |rows| - 1;
      AcceptedOccur(rows[..n], parseCredits, parseNote, x);
      if exists i :: 0 <= i < n && Accept(rows[..n][i], parseCredits, parseNote) == Some(x) {
        var i :| 0 <= i < n && Accept(rows[..n][i], parseCredits, parseNote) == Some(x);
        assert Accept(rows[i], parseCredits, parseNote) == Some(x);
      }
      if exists i :: 0 <= i < |rows| && Accept(rows[i], parseCredits, parseNote) == Some(x) {
        var i :| 0 <= i < |rows| && Accept(rows[i], parseCredits, parseNote) == Some(x);
        if i < n {
          assert Accept(rows[..n][i], parseCredits, parseNote) == Some(x);
        }
      }
    }
  }

  /** The module name plays no part: rows that differ only there read the same. */
  lemma {:induction false} ModuleNameIgnored(rows: seq<Row>, others: seq<Row>, parseCredits: string -> Option<int>, parseNote: string -> Option<real>)
    requires WellFormed(rows) && WellFormed(others) && |others| == |rows|
    requires forall i :: 0 <= i < |rows| ==>
               others[i][0] == rows[i][0] && others[i][1] == rows[i][1] &&
               others[i][3] == rows[i][3] && others[i][4] == rows[i][4]
    ensures Accepted(others, parseCredits, parseNote) == Accepted(rows, parseCredits, parseNote)
  {
    if rows != [] {
      var n := |rows| - 1;
      ModuleNameIgnored(rows[..n], others[..n], parseCredits, parseNote);
    }
  }

  /** A semester is reported exactly when some accepted row carries it. */
  lemma SemesterReportedExactly(rows: seq<Row>, parseCredits: string -> Option<int>, parseNote: string -> Option<real>, s: string)
    requires WellFormed(rows)
    ensures s in Semesters(Accepted(rows, parseCredits, parseNote)) <==>
              exists i :: 0 <= i < |rows| && Accept(rows[i], parseCredits, parseNote).Some? &&
                          Accept(rows[i], parseCredits, parseNote).value.semester == s
  {
    var entries := Accepted(rows, parseCredits, parseNote);
    SemestersExactly(entries, s);
    if s in Semesters(entries) {
      var j :| 0 <= j < |entries| && entries[j].semester == s;
      AcceptedOccur(rows, parseCredits, parseNote, entries[j]);
    }
    if exists i :: 0 <= i < |rows| && Accept(rows[i], parseCredits, parseNote).Some? &&
                   Accept(rows[i], parseCredits, parseNote).value.semester == s {
      var i :| 0 <= i < |rows| && Accept(rows[i], parseCredits, parseNote).Some? &&
               Accept(rows[i], parseCredits, parseNote).value.semester == s;
      var x := Accept(rows[i], parseCredits, parseNote).value;
      AcceptedOccur(rows, parseCredits, parseNote, x);
      var j :| 0 <= j < |entries| && entries[j] == x;
    }
  }

  /** A (semester, UE) pair is reported exactly when some accepted row carries it. */
  lemma UeReportedExactly(rows: seq<Row>, parseCredits: string -> Option<int>, parseNote: string -> Option<real>, s: string, u: string)
    requires WellFormed(rows)
    ensures u in UesOf(Accepted(rows, parseCredits, parseNote), s) <==>
              exists i :: 0 <= i < |rows| && Accept(rows[i], parseCredits, parseNote).Some? &&
                          InGroup(Accept(rows[i], parseCredits, parseNote).value, s, u)
  {
    var entries := Accepted(rows, parseCredits, parseNote);
    UesExactly(entries, s, u);
    if u in UesOf(entries, s) {
      var j :| 0 <= j < |entries| && InGroup(entries[j], s, u);
      AcceptedOccur(rows, parseCredits, parseNote, entries[j]);
    }
    if exists i :: 0 <= i < |rows| && Accept(rows[i], parseCredits, parseNote).Some? &&
                   InGroup(Accept(rows[i], parseCredits, parseNote).value, s, u) {
      var i :| 0 <= i < |rows| && Accept(rows[i], parseCredits, parseNote).Some? &&
               InGroup(Accept(rows[i], parseCredits, parseNote).value, s, u);
      var x := Accept(rows[i], parseCredits, parseNote).value;
      AcceptedOccur(rows, parseCredits, parseNote, x);
      var j :| 0 <= j < |entries| && entries[j] == x;
    }
  }

  /**
   * A reported UE has at least one note, and when all its credits are
   * positive its average lies between its smallest and its largest note.
   */
  lemma ReportedAverageWithinNotes(a: Averages, entries: seq<Entry>, s: string, u: string)
    requires Reports(a, entries)
    requires s in a.values && u in a.values[s].values
    requires forall k :: 0 <= k < |GroupOf(entries, s, u).credits| ==> GroupOf(entries, s, u).credits[k] > 0
    ensures GroupOf(entries, s, u).notes != []
    ensures Min(GroupOf(entries, s, u).notes) <= a.values[s].values[u] <= Max(GroupOf(entries, s, u).notes)
  {
    var group := GroupOf(entries, s, u);
    assert u in UesOf(entries, s);
    UesExactly(entries, s, u);
    var j :| 0 <= j < |entries| && InGroup(entries[j], s, u);
    assert j in MatchIndices(entries, s, u);
    GroupOfAligned(entries, s, u);
    PositiveCreditsWithinNotes(group.credits, group.notes);
  }

  /**
   * A UE that some entry carries is reported even when its credits add up
   * to 0, and its average is then 0.
   */
  lemma ZeroTotalReported(a: Averages, entries: seq<Entry>, s: string, u: string)
    requires Reports(a, entries)
    requires exists j :: 0 <= j < |entries| && InGroup(entries[j], s, u)
    requires Total(GroupOf(entries, s, u).credits) == 0
    ensures s in a.values && u in a.values[s].values
    ensures a.values[s].values[u] == 0.0
  {
    SemestersExactly(entries, s);
    UesExactly(entries, s, u);
  }
}
