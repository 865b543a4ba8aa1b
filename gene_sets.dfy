/** Reading the gene-set lines against the input genes, and the 2x2
    contingency table of each gene set that shares at least one member
    with the input. Both controllers read their lines and build their
    tables this way; each line is already split at tabs into
    (gene-set id, label, member, member, ...). */
module GeneSets {
  import Genes

  /** The values the reading loop stores for one gene-set id. The source
      keeps them in five dictionaries keyed alike (member list, overlap,
      size, and two cells); here they are one record per id.
      yy = members in the input, yn = members not in the input,
      ny = input genes not in the set. The size N is |members|. */
  datatype Row = Row(members: seq<string>, yy: int, yn: int, ny: int)

  /** The state after reading: the ids in dictionary insertion order, the
      stored values per id, and the set of all members of the sets that
      were stored. */
  datatype Catalogue = Catalogue(order: seq<string>, rows: map<string, Row>, universe: set<string>)

  function Elements(s: seq<string>): (e: set<string>)
    ensures forall x :: x in e <==> x in s
  {
    set x | x in s
  }

  /** `len([x for x in gene_ids if x in genes])`: members in the input,
      counted with repetition. */
  function Overlap(members: seq<string>, keys: set<string>): (c: nat)
    ensures c <= |members|
    ensures c == 0 <==> forall i :: 0 <= i < |members| ==> members[i] !in keys
  {
    if members == [] then 0
    else
      var rest := Overlap(members[1..], keys);
      assert forall i :: 1 <= i < |members| ==> members[i] == members[1..][i - 1];
      (if members[0] in keys then 1 else 0) + rest
  }

  /** The overlap is additive over concatenation, so every occurrence of
      an input key counts, repeats included. */
  lemma {:induction false} OverlapAppend(a: seq<string>, b: seq<string>, keys: set<string>)
    ensures Overlap(a + b, keys) == Overlap(a, keys) + Overlap(b, keys)
  {
    if a == [] {
      assert a + b == b;
    } else {
      assert (a + b)[1..] == a[1..] + b;
      OverlapAppend(a[1..], b, keys);
    }
  }

  /** The overlap equals the number of members exactly when every member
      is an input key. */
  lemma {:induction false} OverlapAll(members: seq<string>, keys: set<string>)
    ensures Overlap(members, keys) == |members| <==> forall i :: 0 <= i < |members| ==> members[i] in keys
  {
    if members != [] {
      OverlapAll(members[1..], keys);
      assert forall i :: 1 <= i < |members| ==> members[i] == members[1..][i - 1];
    }
  }

  /** A line is stored when it has at least three columns and at least one
      member in the input. Any other line is skipped. */
  predicate Qualifies(cols: seq<string>, keys: set<string>)
  {
    |cols| >= 3 && Overlap(cols[2..], keys) > 0
  }

  /** The values stored for a qualifying line; `nkeys` is the number of
      distinct input keys. */
  function RowOf(members: seq<string>, keys: set<string>): Row
  {
    var overlap := Overlap(members, keys);
    Row(members, overlap, |members| - overlap, |keys| - overlap)
  }

  /** One pass of the reading loop. A repeated id keeps its first position
      but takes the values of the later line, and both lines' members join
      the universe. */
  function ReadLine(cat: Catalogue, cols: seq<string>, keys: set<string>): Catalogue
  {
    if !Qualifies(cols, keys) then cat
    else
      var id := cols[0];
      Catalogue(if id in cat.rows then cat.order else cat.order + [id],
                cat.rows[id := RowOf(cols[2..], keys)],
                cat.universe + Elements(cols[2..]))
  }

  /** The reading loop over all lines. */
  function ReadAll(lines: seq<seq<string>>, keys: set<string>): Catalogue
  {
    if lines == [] then Catalogue([], map[], {})
    else ReadLine(ReadAll(lines[..|lines| - 1], keys), lines[|lines| - 1], keys)
  }

  /** The gene sets read against the keys of the input genes, as both
      controllers read them. */
  function ReadCatalogue(genes: seq<Genes.Gene>, lines: seq<seq<string>>): (cat: Catalogue)
    ensures WellFormed(cat, Genes.InputKeys(genes))
  {
    ReadAllWellFormed(lines, Genes.InputKeys(genes));
    ReadAll(lines, Genes.InputKeys(genes))
  }

  /** The cell relations of a stored row. */
  predicate RowCells(row: Row, keys: set<string>)
  {
    1 <= row.yy <= |row.members| &&
    row.yy + row.yn == |row.members| &&
    row.yy + row.ny == |keys|
  }

  /** What reading guarantees: each stored id once in the order, the order
      holding exactly the stored ids, every stored row satisfying the cell
      relations, and its members in the universe. */
  ghost predicate WellFormed(cat: Catalogue, keys: set<string>)
  {
    (forall i, j :: 0 <= i < j < |cat.order| ==> cat.order[i] != cat.order[j]) &&
    (forall id :: id in cat.rows <==> id in cat.order) &&
    (forall id :: id in cat.rows ==>
       RowCells(cat.rows[id], keys) && Elements(cat.rows[id].members) <= cat.universe)
  }

  lemma ReadLineWellFormed(cat: Catalogue, cols: seq<string>, keys: set<string>)
    requires WellFormed(cat, keys)
    ensures WellFormed(ReadLine(cat, cols, keys), keys)
  {
    if Qualifies(cols, keys) {
      var r := ReadLine(cat, cols, keys);
      var id := cols[0];
      if id !in cat.rows {
        forall i, j | 0 <= i < j < |r.order| ensures r.order[i] != r.order[j] {
          if j == |cat.order| {
            assert cat.order[i] in cat.rows;
          }
        }
      }
    }
  }

  lemma {:induction false} ReadAllWellFormed(lines: seq<seq<string>>, keys: set<string>)
    ensures WellFormed(ReadAll(lines, keys), keys)
  {
    if lines != [] {
      ReadAllWellFormed(lines[..|lines| - 1], keys);
      ReadLineWellFormed(ReadAll(lines[..|lines| - 1], keys), lines[|lines| - 1], keys);
    }
  }

  /** An id is stored exactly when some line with that id qualifies. */
  lemma {:induction false} ReadAllIds(lines: seq<seq<string>>, keys: set<string>)
    ensures forall id :: id in ReadAll(lines, keys).rows <==>
              exists i :: 0 <= i < |lines| && Qualifies(lines[i], keys) && lines[i][0] == id
  {
    if lines != [] {
      var init := lines[..|lines| - 1];
      ReadAllIds(init, keys);
      var before := ReadAll(init, keys);
      var after := ReadAll(lines, keys);
      forall id | id in after.rows
        ensures exists i :: 0 <= i < |lines| && Qualifies(lines[i], keys) && lines[i][0] == id
      {
        if id in before.rows {
          var i :| 0 <= i < |init| && Qualifies(init[i], keys) && init[i][0] == id;
          assert lines[i] == init[i];
        } else {
          assert Qualifies(lines[|lines| - 1], keys);
        }
      }
      forall id | exists i :: 0 <= i < |lines| && Qualifies(lines[i], keys) && lines[i][0] == id
        ensures id in after.rows
      {
        var i :| 0 <= i < |lines| && Qualifies(lines[i], keys) && lines[i][0] == id;
        if i < |init| {
          assert init[i] == lines[i];
        }
      }
    }
  }

  /** Line i is the last qualifying line with its id. */
  ghost predicate LastWithId(lines: seq<seq<string>>, keys: set<string>, i: int)
    requires 0 <= i < |lines| && Qualifies(lines[i], keys)
  {
    forall j :: i < j < |lines| && Qualifies(lines[j], keys) ==> lines[j][0] != lines[i][0]
  }

  /** A stored id carries the values of the last qualifying line with that
      id: a later line overwrites an earlier one. */
  lemma {:induction false} ReadAllLastWins(lines: seq<seq<string>>, keys: set<string>, i: int)
    requires 0 <= i < |lines| && Qualifies(lines[i], keys) && LastWithId(lines, keys, i)
    ensures lines[i][0] in ReadAll(lines, keys).rows
    ensures ReadAll(lines, keys).rows[lines[i][0]] == RowOf(lines[i][2..], keys)
  {
    var init := lines[..|lines| - 1];
    if i < |init| {
      assert init[i] == lines[i];
      forall j | i < j < |init| && Qualifies(init[j], keys) ensures init[j][0] != init[i][0] {
        assert init[j] == lines[j];
      }
      ReadAllLastWins(init, keys, i);
    }
  }

  /** The universe is the union of the members of the qualifying lines only. */
  lemma {:induction false} ReadAllUniverse(lines: seq<seq<string>>, keys: set<string>)
    ensures forall x :: x in ReadAll(lines, keys).universe <==>
              exists i :: 0 <= i < |lines| && Qualifies(lines[i], keys) && x in lines[i][2..]
  {
    if lines != [] {
      var init := lines[..|lines| - 1];
      var last := lines[|lines| - 1];
      ReadAllUniverse(init, keys);
      var before := ReadAll(init, keys);
      var after := ReadAll(lines, keys);
      forall x | x in after.universe
        ensures exists i :: 0 <= i < |lines| && Qualifies(lines[i], keys) && x in lines[i][2..]
      {
        if x in before.universe {
          var i :| 0 <= i < |init| && Qualifies(init[i], keys) && x in init[i][2..];
          assert lines[i] == init[i];
        } else {
          assert Qualifies(last, keys) && x in last[2..];
        }
      }
      forall x | exists i :: 0 <= i < |lines| && Qualifies(lines[i], keys) && x in lines[i][2..]
        ensures x in after.universe
      {
        var i :| 0 <= i < |lines| && Qualifies(lines[i], keys) && x in lines[i][2..];
        if i < |init| {
          assert init[i] == lines[i];
        }
      }
    }
  }

  /** The reading loop: for each line of at least three columns whose
      members meet the input, store the counts and members under its id
      and add its members one by one to the universe. */
  method ReadGeneSets(lines: seq<seq<string>>, keys: set<string>)
    returns (order: seq<string>, rows: map<string, Row>, universe: set<string>)
    ensures Catalogue(order, rows, universe) == ReadAll(lines, keys)
  {
    order, rows, universe := [], map[], {};
    for i := 0 to |lines|
      invariant Catalogue(order, rows, universe) == ReadAll(lines[..i], keys)
    {
      assert lines[..i + 1][..i] == lines[..i];
      var cols := lines[i];
      if |cols| < 3 {
        continue;
      }
      var id := cols[0];
      var members := cols[2..];
      var overlap := Overlap(members, keys);
      if overlap == 0 {
        continue;
      }
      if id !in rows {
        order := order + [id];
      }
      rows := rows[id := Row(members, overlap, |members| - overlap, |keys| - overlap)];
      ghost var before := universe;
      for t := 0 to |members|
        invariant universe == before + Elements(members[..t])
      {
        assert members[..t + 1] == members[..t] + [members[t]];
        universe := universe + {members[t]};
      }
      assert members[..|members|] == members;
    }
    assert lines[..|lines|] == lines;
  }

  /** The four cells `[[yy, yn], [ny, nn]]` passed to the exact test. */
  datatype Table = Table(yy: int, yn: int, ny: int, nn: int)

  predicate NonNegativeTable(t: Table)
  {
    0 <= t.yy && 0 <= t.yn && 0 <= t.ny && 0 <= t.nn
  }

  /** The table of a stored row against M genes: nn is what is left of M. */
  function TableOf(row: Row, m: int): (t: Table)
    ensures t.yy + t.yn + t.ny + t.nn == m
    ensures t.yy == row.yy && t.yn == row.yn && t.ny == row.ny
  {
    Table(row.yy, row.yn, row.ny, m - row.yy - row.yn - row.ny)
  }

  /** For every stored set: yy >= 1, yy + yn = N, yy + ny = the number of
      distinct input keys, and the four cells sum to M = |universe|. */
  lemma StoredTable(lines: seq<seq<string>>, keys: set<string>, id: string)
    requires id in ReadAll(lines, keys).rows
    ensures var cat := ReadAll(lines, keys);
            var row := cat.rows[id];
            var t := TableOf(row, |cat.universe|);
            1 <= t.yy && t.yy + t.yn == |row.members| && t.yy + t.ny == |keys| &&
            t.yy + t.yn + t.ny + t.nn == |cat.universe|
  {
    ReadAllWellFormed(lines, keys);
  }

  /** A p-value: a real in [0, 1]. */
  type Probability = r: real | 0.0 <= r <= 1.0

  /** What the exact test returns for a table. */
  datatype FisherResult = FisherResult(oddsRatio: real, pValue: Probability)

  /** The result of testing one stored set. */
  datatype Tested = Tested(id: string, oddsRatio: real, pValue: Probability)

  /** The outcome of testing a run of stored sets. */
  datatype Outcome = Passed(tests: seq<Tested>) | Failed(id: string)

  /** The testing loop over the stored ids, in insertion order: each set's
      table goes to the exact test; a table with a negative cell makes the
      test raise, which ends the whole request at that set. */
  function TestAll(ids: seq<string>, rows: map<string, Row>, m: int, fisher: Table -> FisherResult): Outcome
    requires forall i :: 0 <= i < |ids| ==> ids[i] in rows
  {
    if ids == [] then Passed([])
    else
      var init := ids[..|ids| - 1];
      var id := ids[|ids| - 1];
      assert forall i :: 0 <= i < |init| ==> init[i] == ids[i];
      match TestAll(init, rows, m, fisher)
      case Failed(e) => Failed(e)
      case Passed(ts) =>
        var t := TableOf(rows[id], m);
        if !NonNegativeTable(t) then Failed(id)
        else Passed(ts + [Tested(id, fisher(t).oddsRatio, fisher(t).pValue)])
  }

  /** Testing fails exactly when some set has a negative cell, and then at
      the first such set; otherwise there is one test per set, in order,
      carrying the exact test's result for the set's table. */
  lemma {:induction false} TestAllOutcome(ids: seq<string>, rows: map<string, Row>, m: int, fisher: Table -> FisherResult)
    requires forall i :: 0 <= i < |ids| ==> ids[i] in rows
    ensures TestAll(ids, rows, m, fisher).Failed? <==>
              exists j :: 0 <= j < |ids| && !NonNegativeTable(TableOf(rows[ids[j]], m))
    ensures TestAll(ids, rows, m, fisher).Failed? ==>
              exists j :: 0 <= j < |ids| && ids[j] == TestAll(ids, rows, m, fisher).id &&
                !NonNegativeTable(TableOf(rows[ids[j]], m)) &&
                forall l :: 0 <= l < j ==> NonNegativeTable(TableOf(rows[ids[l]], m))
    ensures TestAll(ids, rows, m, fisher).Passed? ==>
              var ts := TestAll(ids, rows, m, fisher).tests;
              |ts| == |ids| &&
              forall j :: 0 <= j < |ids| ==>
                var t := TableOf(rows[ids[j]], m);
                ts[j] == Tested(ids[j], fisher(t).oddsRatio, fisher(t).pValue)
  {
    if ids != [] {
      var init := ids[..|ids| - 1];
      assert forall i :: 0 <= i < |init| ==> init[i] == ids[i];
      TestAllOutcome(init, rows, m, fisher);
    }
  }

  /** One more set through the testing loop. */
  lemma TestAllStep(order: seq<string>, rows: map<string, Row>, m: int, fisher: Table -> FisherResult,
                    i: nat, ts: seq<Tested>)
    requires i < |order| && forall j :: 0 <= j < |order| ==> order[j] in rows
    requires TestAll(order[..i], rows, m, fisher) == Passed(ts)
    ensures !NonNegativeTable(TableOf(rows[order[i]], m)) ==>
              TestAll(order[..i + 1], rows, m, fisher) == Failed(order[i])
    ensures NonNegativeTable(TableOf(rows[order[i]], m)) ==>
              var t := TableOf(rows[order[i]], m);
              TestAll(order[..i + 1], rows, m, fisher) == Passed(ts + [Tested(order[i], fisher(t).oddsRatio, fisher(t).pValue)])
  {
    assert order[..i + 1][..i] == order[..i];
  }

  /** Once the loop has failed on a prefix it has failed on the whole list. */
  lemma {:induction false} FailurePersists(ids: seq<string>, rows: map<string, Row>, m: int,
                                           fisher: Table -> FisherResult, i: nat)
    requires i <= |ids| && forall j :: 0 <= j < |ids| ==> ids[j] in rows
    requires TestAll(ids[..i], rows, m, fisher).Failed?
    ensures TestAll(ids, rows, m, fisher) == TestAll(ids[..i], rows, m, fisher)
  {
    if i < |ids| {
      var init := ids[..|ids| - 1];
      assert init[..i] == ids[..i];
      FailurePersists(init, rows, m, fisher, i);
    } else {
      assert ids[..i] == ids;
    }
  }

  /** `all_gene_set_ids`, in testing order. */
  function Ids(ts: seq<Tested>): (r: seq<string>)
    ensures |r| == |ts| && forall j :: 0 <= j < |ts| ==> r[j] == ts[j].id
  {
    if ts == [] then [] else Ids(ts[..|ts| - 1]) + [ts[|ts| - 1].id]
  }

  /** `all_pvalues`, in testing order, parallel to Ids. */
  function PValues(ts: seq<Tested>): (r: seq<real>)
    ensures |r| == |ts| && forall j :: 0 <= j < |ts| ==> r[j] == ts[j].pValue
  {
    if ts == [] then [] else PValues(ts[..|ts| - 1]) + [ts[|ts| - 1].pValue]
  }

  /** The odds ratio left in the loop variable after the testing loop: the
      last tested set's (0.0 stands in when nothing was tested, in which
      case it is never read). */
  function LastOddsRatio(ts: seq<Tested>): real
  {
    if ts == [] then 0.0 else ts[|ts| - 1].oddsRatio
  }

  /** The p-value left in the loop variable after the testing loop. */
  function LastPValue(ts: seq<Tested>): real
  {
    if ts == [] then 0.0 else ts[|ts| - 1].pValue
  }

  /** `gene_set_pvalues`: the sets whose p-value is strictly below the
      threshold, with their p-values. */
  function Significant(ts: seq<Tested>, maxP: real): map<string, real>
  {
    if ts == [] then map[]
    else
      var t := ts[|ts| - 1];
      var d := Significant(ts[..|ts| - 1], maxP);
      if t.pValue < maxP then d[t.id := t.pValue] else d
  }

  /** With distinct ids, a tested set is in the map exactly when its p-value
      is strictly below the threshold, and then with its own p-value. */
  lemma {:induction false} SignificantContents(ts: seq<Tested>, maxP: real)
    requires forall i, j :: 0 <= i < j < |ts| ==> ts[i].id != ts[j].id
    ensures forall id :: id in Significant(ts, maxP) ==> exists j :: 0 <= j < |ts| && ts[j].id == id
    ensures forall j :: 0 <= j < |ts| ==>
              (ts[j].id in Significant(ts, maxP) <==> ts[j].pValue < maxP)
    ensures forall j :: 0 <= j < |ts| && ts[j].id in Significant(ts, maxP) ==>
              Significant(ts, maxP)[ts[j].id] == ts[j].pValue
  {
    if ts != [] {
      var init := ts[..|ts| - 1];
      assert forall i :: 0 <= i < |init| ==> init[i] == ts[i];
      SignificantContents(init, maxP);
      var d := Significant(ts, maxP);
      forall id | id in d ensures exists j :: 0 <= j < |ts| && ts[j].id == id {
        if id != ts[|ts| - 1].id {
          var j :| 0 <= j < |init| && init[j].id == id;
          assert ts[j].id == id;
        }
      }
    }
  }
}
