/**
 * The line format of a local test repository: one `PACKAGE: DEP1, DEP2, ...`
 * record per line, blank lines and `#` comment lines ignored. Reading the
 * file is left to the caller; this module maps its lines to the repository.
 */
module LocalRepository {
  import opened Text
  import opened Graph

  /** One parsed record line. */
  datatype Record = Record(package: string, deps: seq<string>)

  datatype Option<T> = None | Some(value: T)

  /** Every character of `Strip(s)` occurs in `s`. */
  lemma StripKeepsChars(s: string, c: char)
    ensures c in Strip(s) ==> c in s
  {
    var l := TrimLeft(s);
    var r := TrimRight(l);
    if c in r {
      var k :| 0 <= k < |r| && r[k] == c;
      assert l[k] == c;
      assert s[|s| - |l| + k] == c;
    }
  }

  /** The dependencies of one record: every comma-separated piece, stripped, empty pieces dropped. */
  function Dependencies(pieces: seq<string>): (deps: seq<string>)
    ensures |deps| <= |pieces|
    ensures forall k :: 0 <= k < |deps| ==> deps[k] != [] && Trimmed(deps[k])
  {
    if pieces == [] then []
    else
      var d := Strip(pieces[0]);
      var rest := Dependencies(pieces[1..]);
      if d == [] then rest else [d] + rest
  }

  /** Each non-blank piece contributes its stripped text, in order; blank pieces contribute nothing. */
  lemma {:induction false} DependenciesAppend(a: seq<string>, b: seq<string>)
    ensures Dependencies(a + b) == Dependencies(a) + Dependencies(b)
  {
    if a != [] {
      assert (a + b)[0] == a[0];
      assert (a + b)[1..] == a[1..] + b;
      DependenciesAppend(a[1..], b);
      var d := Strip(a[0]);
      if d != [] {
        assert Dependencies(a + b) == [d] + Dependencies(a[1..] + b);
        assert Dependencies(a) == [d] + Dependencies(a[1..]);
      }
    } else {
      assert a + b == b;
    }
  }

  /** Stripping never introduces a comma: pieces of a comma split give comma-free dependencies. */
  lemma {:induction false} DependenciesNoComma(pieces: seq<string>)
    requires forall k :: 0 <= k < |pieces| ==> ',' !in pieces[k]
    ensures forall k :: 0 <= k < |Dependencies(pieces)| ==> ',' !in Dependencies(pieces)[k]
  {
    if pieces != [] {
      DependenciesNoComma(pieces[1..]);
      var d := Strip(pieces[0]);
      var rest := Dependencies(pieces[1..]);
      StripKeepsChars(pieces[0], ',');
      var deps := Dependencies(pieces);
      forall k | 0 <= k < |deps| ensures ',' !in deps[k] {
        if d != [] {
          assert deps == [d] + rest;
          if k > 0 {
            assert deps[k] == rest[k - 1];
          }
        }
      }
    }
  }

  lemma DependenciesOne(p: string)
    ensures Dependencies([p]) == if AllSpace(p) then [] else [Strip(p)]
  {
    StripEmpty(p);
    assert [p][1..] == [];
  }

  /** True for the lines the loader skips: blank, `#` comment, or without a colon. */
  predicate Skipped(line: string) {
    line == [] || line[0] == '#' || ':' !in line
  }

  /**
   * One iteration of the loader's loop: strip the line, skip it or split it
   * at its first colon into the package name and the dependency list.
   */
  function ParseLine(raw: string): (r: Option<Record>)
    ensures r.None? <==> Skipped(Strip(raw))
    ensures r.Some? ==> Trimmed(r.value.package) && ':' !in r.value.package
    ensures r.Some? ==> forall k :: 0 <= k < |r.value.deps| ==> ',' !in r.value.deps[k]
  {
    var line := Strip(raw);
    if line == [] || line[0] == '#' then None
    else if ':' !in line then None
    else
      var k := IndexOf(line, ':');
      StripKeepsChars(line[..k], ':');
      DependenciesNoComma(Split(line[k + 1..], ','));
      Some(Record(Strip(line[..k]), Dependencies(Split(line[k + 1..], ','))))
  }

  /** A record line is `head: tail` with a colon-free head; the parser reads back head and tail. */
  lemma ParseRecordLine(raw: string, head: string, tail: string)
    requires Strip(raw) == head + ":" + tail
    requires ':' !in head && (head == [] || head[0] != '#')
    ensures ParseLine(raw) == Some(Record(Strip(head), Dependencies(Split(tail, ','))))
  {
    var line := Strip(raw);
    IndexOfAfter(head, ':', tail);
    assert line[|head|] == ':';
    assert line[..|head|] == head;
    assert line[|head| + 1..] == tail;
  }

  /**
   * The loader's loop: parse every line, then store the records in file
   * order. A package is in the repository exactly when some line is a record
   * for it, and it maps to the dependencies of the last such line.
   */
  function Parse(lines: seq<string>): (repo: Repository)
    ensures forall p :: p in repo <==> exists i :: 0 <= i < |lines| && Declares(Records(lines), i, p)
    ensures forall p, i :: 0 <= i < |lines| && Declares(Records(lines), i, p) && LastDeclaration(Records(lines), i, p)
                           ==> p in repo && repo[p] == ParseLine(lines[i]).value.deps
  {
    StoreLastRecordWins(Records(lines));
    Store(Records(lines))
  }

  /** The parse of each line, in file order. */
  function Records(lines: seq<string>): (records: seq<Option<Record>>)
    ensures |records| == |lines|
    ensures forall i :: 0 <= i < |lines| ==> records[i] == ParseLine(lines[i])
  {
    seq(|lines|, i requires 0 <= i < |lines| => ParseLine(lines[i]))
  }

  /** `repo[package] = deps` for each record in turn; skipped lines change nothing. */
  function Store(records: seq<Option<Record>>): (stored: Repository)
    ensures forall p :: p in stored ==> exists i :: 0 <= i < |records| && Declares(records, i, p)
  {
    if records == [] then map[]
    else
      var init := records[..|records| - 1];
      var repo := Store(init);
      assert forall q :: q in repo ==> exists i :: 0 <= i < |records| && Declares(records, i, q) by {
        forall q | q in repo ensures exists i :: 0 <= i < |records| && Declares(records, i, q) {
          var i :| 0 <= i < |init| && Declares(init, i, q);
          assert Declares(records, i, q);
        }
      }
      match records[|records| - 1]
      case None => repo
      case Some(rec) =>
        assert Declares(records, |records| - 1, rec.package);
        repo[rec.package := rec.deps]
  }

  /** Record `i` is about package `p`. */
  predicate Declares(records: seq<Option<Record>>, i: int, p: string)
    requires 0 <= i < |records|
  {
    records[i].Some? && records[i].value.package == p
  }

  /** No record after index `i` is about `p`. */
  predicate LastDeclaration(records: seq<Option<Record>>, i: int, p: string)
    requires 0 <= i < |records|
  {
    forall j :: i < j < |records| ==> !Declares(records, j, p)
  }

  /**
   * Every package is stored exactly when some record declares it, and its
   * dependencies are those of the last record that declares it.
   */
  lemma StoreLastRecordWins(records: seq<Option<Record>>)
    ensures forall p :: p in Store(records) <==> exists i :: 0 <= i < |records| && Declares(records, i, p)
    ensures forall p, i :: 0 <= i < |records| && Declares(records, i, p) && LastDeclaration(records, i, p)
                           ==> p in Store(records) && Store(records)[p] == records[i].value.deps
  {
    forall p ensures p in Store(records) <==> exists i :: 0 <= i < |records| && Declares(records, i, p) {
      StoreMember(records, p);
    }
    forall p, i | 0 <= i < |records| && Declares(records, i, p) && LastDeclaration(records, i, p)
      ensures p in Store(records) && Store(records)[p] == records[i].value.deps
    {
      StoreValue(records, p, i);
    }
  }

  /** A package is stored exactly when some record declares it. */
  lemma {:induction false} StoreMember(records: seq<Option<Record>>, p: string)
    ensures p in Store(records) <==> exists i :: 0 <= i < |records| && Declares(records, i, p)
  {
    if records != [] {
      var n := |records| - 1;
      var init := records[..n];
      StoreMember(init, p);
      if Declares(records, n, p) {
        assert p in Store(records);
      } else {
        StoreOtherPackage(records, p);
        if exists i :: 0 <= i < |records| && Declares(records, i, p) {
          var i :| 0 <= i < |records| && Declares(records, i, p);
          assert init[i] == records[i];
          assert Declares(init, i, p);
        }
        if exists i :: 0 <= i < |init| && Declares(init, i, p) {
          var i :| 0 <= i < |init| && Declares(init, i, p);
          assert init[i] == records[i];
          assert Declares(records, i, p);
        }
      }
    }
  }

  /** The last record that declares a package gives its stored dependencies. */
  lemma {:induction false} StoreValue(records: seq<Option<Record>>, p: string, i: nat)
    requires i < |records| && Declares(records, i, p) && LastDeclaration(records, i, p)
    ensures p in Store(records) && Store(records)[p] == records[i].value.deps
  {
    var n := |records| - 1;
    var init := records[..n];
    if i < n {
      assert !Declares(records, n, p);
      StoreOtherPackage(records, p);
      assert init[i] == records[i];
      forall j | i < j < n ensures !Declares(init, j, p) {
        assert init[j] == records[j];
        assert !Declares(records, j, p);
      }
      StoreValue(init, p, i);
    }
  }

  /** A last record about another package leaves `p`'s entry as it was. */
  lemma StoreOtherPackage(records: seq<Option<Record>>, p: string)
    requires records != [] && !Declares(records, |records| - 1, p)
    ensures p in Store(records) <==> p in Store(records[..|records| - 1])
    ensures p in Store(records) ==> Store(records)[p] == Store(records[..|records| - 1])[p]
  {
  }
}
