/**
 * The SQL text the fixture helper sends to the database: the statements of
 * a `;`-separated script, and the vendor-specific statement that empties a
 * table while the protected tables are kept.
 */
module FixtureSql {
  import opened Text

  /** The texts between the `;`s of `s`, empty ones included, in order. */
  function Segments(s: string): (r: seq<string>)
    ensures |r| >= 1
    ensures forall i :: 0 <= i < |r| ==> ';' !in r[i]
  {
    if s == [] then [[]]
    else
      var rest := Segments(s[1..]);
      if s[0] == ';' then [[]] + rest else [[s[0]] + rest[0]] + rest[1..]
  }

  /** Puts a `;` between consecutive parts. */
  function Join(parts: seq<string>): string
    requires |parts| >= 1
  {
    if |parts| == 1 then parts[0] else parts[0] + ";" + Join(parts[1..])
  }

  /** Cutting at every `;` and gluing back gives the script again. */
  lemma {:induction false} JoinSegments(s: string)
    ensures Join(Segments(s)) == s
  {
    if s != [] {
      var rest := Segments(s[1..]);
      JoinSegments(s[1..]);
      if s[0] == ';' {
        assert ([[]] + rest)[1..] == rest;
      } else {
        var r := [[s[0]] + rest[0]] + rest[1..];
        if |rest| == 1 {
          assert Join(r) == [s[0]] + rest[0];
        } else {
          assert r[1..] == rest[1..];
          assert Join(rest) == rest[0] + ";" + Join(rest[1..]);
        }
      }
    }
  }

  /** Parts without `;` are recovered exactly from their join. */
  lemma {:induction false} SegmentsJoin(parts: seq<string>)
    requires |parts| >= 1 && forall i :: 0 <= i < |parts| ==> ';' !in parts[i]
    ensures Segments(Join(parts)) == parts
    decreases |parts|, |parts[0]|
  {
    var p := parts[0];
    if p != [] {
      var shorter := [p[1..]] + parts[1..];
      assert forall i :: 0 <= i < |shorter| ==> ';' !in shorter[i] by {
        forall i | 0 <= i < |shorter| ensures ';' !in shorter[i] {
          if i == 0 {
            assert forall c :: c in p[1..] ==> c in p;
          } else {
            assert shorter[i] == parts[i];
          }
        }
      }
      SegmentsJoin(shorter);
      assert shorter[1..] == parts[1..];
      if |parts| == 1 {
        assert Join(shorter) == p[1..];
      } else {
        assert Join(shorter) == p[1..] + ";" + Join(parts[1..]);
      }
      assert Join(parts) == [p[0]] + Join(shorter);
      assert p[0] in p;
      assert [p[0]] + p[1..] == p;
    } else if |parts| > 1 {
      assert Join(parts) == ";" + Join(parts[1..]);
      SegmentsJoin(parts[1..]);
      assert (";" + Join(parts[1..]))[1..] == Join(parts[1..]);
    }
  }

  function DropTrailingEmpty(parts: seq<string>): (r: seq<string>)
    ensures |r| <= |parts| && r == parts[..|r|]
    ensures forall i :: |r| <= i < |parts| ==> parts[i] == []
    ensures r == [] || r[|r| - 1] != []
  {
    if parts != [] && parts[|parts| - 1] == [] then DropTrailingEmpty(parts[..|parts| - 1]) else parts
  }

  /**
   * `script.split(";")`: the segments without the empty ones at the end; a
   * script without any `;` is returned whole, even when it is empty.
   */
  function Split(script: string): seq<string>
  {
    if ';' !in script then [script] else DropTrailingEmpty(Segments(script))
  }

  /** The parts that are not blank (equivalently, not empty once trimmed), in order. */
  function NonBlank(parts: seq<string>): (r: seq<string>)
    ensures |r| <= |parts|
    ensures forall i :: 0 <= i < |r| ==> !IsBlank(r[i]) && r[i] in parts
  {
    if parts == [] then []
    else if !IsBlank(parts[0]) then [parts[0]] + NonBlank(parts[1..])
    else NonBlank(parts[1..])
  }

  /** Every non-blank part is kept as often as it occurs, and no blank part is. */
  lemma {:induction false} NonBlankCounts(parts: seq<string>)
    ensures forall x :: multiset(NonBlank(parts))[x] == if IsBlank(x) then 0 else multiset(parts)[x]
    decreases |parts|
  {
    if parts != [] {
      NonBlankCounts(parts[1..]);
      assert parts == [parts[0]] + parts[1..];
    }
  }

  /** A single part is kept exactly when it is not blank. */
  lemma NonBlankSingle(p: string)
    ensures NonBlank([p]) == if IsBlank(p) then [] else [p]
  {
    assert [p][1..] == [];
  }

  lemma {:induction false} NonBlankAppend(a: seq<string>, b: seq<string>)
    ensures NonBlank(a + b) == NonBlank(a) + NonBlank(b)
    decreases |a|
  {
    if a == [] {
      assert a + b == b;
    } else {
      assert (a + b)[0] == a[0] && (a + b)[1..] == a[1..] + b;
      NonBlankAppend(a[1..], b);
    }
  }

  lemma {:induction false} NonBlankDropsEmptyTail(parts: seq<string>)
    ensures NonBlank(DropTrailingEmpty(parts)) == NonBlank(parts)
    decreases |parts|
  {
    if parts != [] && parts[|parts| - 1] == [] {
      var init := parts[..|parts| - 1];
      NonBlankDropsEmptyTail(init);
      assert parts == init + [[]];
      NonBlankAppend(init, [[]]);
      assert NonBlank([[]]) == [];
    }
  }

  /** The statements `executeSQL` sends: the non-blank `;`-separated segments, untrimmed and in order. */
  function Statements(script: string): seq<string>
  {
    NonBlank(Split(script))
  }

  /**
   * How `split` treats the end of the script does not matter: the executed
   * statements are exactly the non-blank segments between `;`s, and every
   * one of them is free of `;` and not blank.
   */
  lemma StatementsAreNonBlankSegments(script: string)
    ensures Statements(script) == NonBlank(Segments(script))
    ensures forall i :: 0 <= i < |Statements(script)| ==>
              ';' !in Statements(script)[i] && !IsBlank(Statements(script)[i])
    ensures forall x :: multiset(Statements(script))[x]
                        == if IsBlank(x) then 0 else multiset(Segments(script))[x]
  {
    NonBlankCounts(Segments(script));
    if ';' !in script {
      assert Segments(Join([script])) == [script] by {
        SegmentsJoin([script]);
      }
    } else {
      var segments := Segments(script);
      NonBlankDropsEmptyTail(segments);
      var kept := DropTrailingEmpty(segments);
      assert forall p :: p in kept ==> p in segments;
    }
  }

  /** `executeSQL(String)`: runs every non-blank segment of the script; returns what was executed, in order. */
  method ExecuteSQL(script: string) returns (executed: seq<string>)
    ensures executed == Statements(script)
  {
    var parts := Split(script);
    executed := [];
    var i := 0;
    while i < |parts|
      invariant 0 <= i <= |parts|
      invariant executed + NonBlank(parts[i..]) == NonBlank(parts)
    {
      TrimEmptyIffBlank(parts[i]);
      if |Trim(parts[i])| > 0 {
        executed := executed + [parts[i]];
      }
      assert parts[i..][1..] == parts[i + 1..];
      i := i + 1;
    }
  }

  const MYSQL := "jdbc:mysql:"
  const ORACLE := "jdbc:oracle:"
  const POSTGRESQL := "jdbc:postgresql:"
  const SOLID := "jdbc:solid:"

  /** `getDeleteTableStmt`: the statement that empties table `name` on the database at `url`. */
  function DeleteTableStmt(url: string, name: string): string
  {
    if StartsWith(url, MYSQL) || StartsWith(url, ORACLE) then "TRUNCATE TABLE " + name + ";"
    else if StartsWith(url, POSTGRESQL) then "TRUNCATE TABLE " + name + " cascade" + ";"
    else if StartsWith(url, SOLID) then "DELETE FROM " + name
    else "DELETE FROM " + name + ";"
  }

  /**
   * The four vendor cases, each decided by the URL's own prefix alone (no URL
   * starts with two of them): MySQL and Oracle truncate, PostgreSQL truncates
   * with `cascade`, Solid deletes without a closing `;`, and every other
   * database deletes with one.
   */
  lemma DeleteTableStmtByVendor(url: string, name: string)
    ensures StartsWith(url, MYSQL) ==> DeleteTableStmt(url, name) == "TRUNCATE TABLE " + name + ";"
    ensures StartsWith(url, ORACLE) ==> DeleteTableStmt(url, name) == "TRUNCATE TABLE " + name + ";"
    ensures StartsWith(url, POSTGRESQL) ==> DeleteTableStmt(url, name) == "TRUNCATE TABLE " + name + " cascade;"
    ensures StartsWith(url, SOLID) ==> DeleteTableStmt(url, name) == "DELETE FROM " + name
    ensures !StartsWith(url, MYSQL) && !StartsWith(url, ORACLE) && !StartsWith(url, POSTGRESQL) && !StartsWith(url, SOLID)
            ==> DeleteTableStmt(url, name) == "DELETE FROM " + name + ";"
  {
    if StartsWith(url, POSTGRESQL) {
      assert url[5] == 'p' by { assert url[..|POSTGRESQL|][5] == 'p'; }
    }
    if StartsWith(url, SOLID) {
      assert url[5] == 's' by { assert url[..|SOLID|][5] == 's'; }
    }
    if StartsWith(url, MYSQL) {
      assert url[5] == 'm' by { assert url[..|MYSQL|][5] == 'm'; }
    }
    if StartsWith(url, ORACLE) {
      assert url[5] == 'o' by { assert url[..|ORACLE|][5] == 'o'; }
    }
  }

  /** `dontDeleteTheseTables`. */
  const DONT_DELETE_THESE_TABLES: seq<string> := ["play_evolutions"]

  /** The tables `deleteDatabase` empties: the listed ones that are not protected, in order. */
  function TablesToEmpty(names: seq<string>): seq<string>
  {
    if names == [] then []
    else if names[0] in DONT_DELETE_THESE_TABLES then TablesToEmpty(names[1..])
    else [names[0]] + TablesToEmpty(names[1..])
  }

  /** No protected table is emptied, and every other table is emptied as often as it is listed. */
  lemma {:induction false} TablesToEmptyCounts(names: seq<string>)
    ensures forall t :: multiset(TablesToEmpty(names))[t] ==
              if t in DONT_DELETE_THESE_TABLES then 0 else multiset(names)[t]
  {
    if names != [] {
      TablesToEmptyCounts(names[1..]);
      assert names == [names[0]] + names[1..];
    }
  }
}
