/**
 * The unique-kanji collector: the set of CJK ideographs (the Extension A block
 * U+3400..U+4DBF and the Unified Ideographs block U+4E00..U+9FFF) that occur in
 * any line of any readable file, reported as a count and as a string sorted by
 * code point.
 */
module UniqueKanji {

  const EXT_A_START: int := 0x3400
  const EXT_A_END: int := 0x4DBF
  const UNIFIED_START: int := 0x4E00
  const UNIFIED_END: int := 0x9FFF

  /** The character class of the collector's pattern. */
  predicate IsKanji(c: char)
  {
    (EXT_A_START <= c as int <= EXT_A_END) || (UNIFIED_START <= c as int <= UNIFIED_END)
  }

  /**
   * What reading one named file yields: it does not exist, or it was opened and
   * produced `lines` before either reaching its end or failing (`failed`), for
   * instance on bytes that are not UTF-8.
   */
  datatype InputFile = NotFound | Opened(lines: seq<string>, failed: bool)

  /** The kanji a file contributes: those matched in the lines it produced. */
  function FileKanji(f: InputFile): set<char>
  {
    match f
    case NotFound => {}
    case Opened(lines, _) => LinesKanji(lines)
  }

  function LinesKanji(lines: seq<string>): set<char>
  {
    if lines == [] then {} else LinesKanji(lines[..|lines| - 1]) + LineKanji(lines[|lines| - 1])
  }

  /** The distinct matches of the pattern in one line. */
  function LineKanji(line: string): set<char>
  {
    set c | c in line && IsKanji(c)
  }

  /** The union of every file's kanji, files taken in order. */
  function Collected(files: seq<InputFile>): set<char>
  {
    if files == [] then {} else Collected(files[..|files| - 1]) + FileKanji(files[|files| - 1])
  }

  /** A character is found in a file exactly when it is a kanji on one of the lines the file produced. */
  lemma {:induction false} LinesKanjiMembers(lines: seq<string>, c: char)
    ensures c in LinesKanji(lines) <==> IsKanji(c) && exists j :: 0 <= j < |lines| && c in lines[j]
    decreases |lines|
  {
    if lines != [] {
      var init := lines[..|lines| - 1];
      LinesKanjiMembers(init, c);
      if c in LinesKanji(lines) && c !in LineKanji(lines[|lines| - 1]) {
        var j :| 0 <= j < |init| && c in init[j];
        assert c in lines[j];
      }
      if IsKanji(c) && exists j :: 0 <= j < |lines| && c in lines[j] {
        var j :| 0 <= j < |lines| && c in lines[j];
        if j < |init| {
          assert c in init[j];
        }
      }
    }
  }

  /**
   * The result holds exactly the kanji that occur on some line some opened file
   * produced: nothing outside the two blocks, nothing from a missing file.
   */
  lemma {:induction false} CollectedMembers(files: seq<InputFile>, c: char)
    ensures c in Collected(files) <==> exists f :: f in files && c in FileKanji(f)
    decreases |files|
  {
    if files != [] {
      var init := files[..|files| - 1];
      CollectedMembers(init, c);
      if c in Collected(files) {
        if c in Collected(init) {
          var f :| f in init && c in FileKanji(f);
          assert f in files;
        } else {
          assert files[|files| - 1] in files;
        }
      }
      if exists f :: f in files && c in FileKanji(f) {
        var f :| f in files && c in FileKanji(f);
        if f != files[|files| - 1] {
          assert f in init;
        }
      }
    }
  }

  /** Unfolded to single lines: every member is a kanji found on a line of an opened file, and conversely. */
  lemma CollectedExactly(files: seq<InputFile>, c: char)
    ensures c in Collected(files) <==>
      IsKanji(c) && exists i, j :: 0 <= i < |files| && files[i].Opened? && 0 <= j < |files[i].lines| && c in files[i].lines[j]
  {
    CollectedMembers(files, c);
    if c in Collected(files) {
      var f :| f in files && c in FileKanji(f);
      var i :| 0 <= i < |files| && files[i] == f;
      LinesKanjiMembers(f.lines, c);
    }
    if IsKanji(c) && exists i, j :: 0 <= i < |files| && files[i].Opened? && 0 <= j < |files[i].lines| && c in files[i].lines[j] {
      var i, j :| 0 <= i < |files| && files[i].Opened? && 0 <= j < |files[i].lines| && c in files[i].lines[j];
      LinesKanjiMembers(files[i].lines, c);
      assert files[i] in files;
    }
  }

  /** The file order, repeated files and missing files do not change the result: only which files are given matters. */
  lemma SameFilesSameResult(files: seq<InputFile>, others: seq<InputFile>)
    requires forall f :: f in files <==> f in others
    ensures Collected(files) == Collected(others)
  {
    forall c
      ensures c in Collected(files) <==> c in Collected(others)
    {
      CollectedMembers(files, c);
      CollectedMembers(others, c);
    }
  }

  /** In particular, a permutation of the files gives the same set. */
  lemma PermutationInvariant(files: seq<InputFile>, others: seq<InputFile>)
    requires multiset(files) == multiset(others)
    ensures Collected(files) == Collected(others)
  {
    forall f
      ensures f in files <==> f in others
    {
      assert f in files <==> f in multiset(files);
      assert f in others <==> f in multiset(others);
    }
    SameFilesSameResult(files, others);
  }

  /** A missing file adds nothing, and processing continues with the rest of the files. */
  lemma MissingFileContributesNothing(before: seq<InputFile>, after: seq<InputFile>)
    ensures Collected(before + [NotFound] + after) == Collected(before + after)
  {
    forall f
      ensures f in before + [NotFound] + after && f != NotFound <==> f in before + after && f != NotFound
    {
    }
    forall c
      ensures c in Collected(before + [NotFound] + after) <==> c in Collected(before + after)
    {
      CollectedMembers(before + [NotFound] + after, c);
      CollectedMembers(before + after, c);
    }
  }

  /** Adding files never removes a character from the result. */
  lemma MoreFilesMoreKanji(files: seq<InputFile>, more: seq<InputFile>)
    ensures Collected(files) <= Collected(files + more)
  {
    forall c | c in Collected(files)
      ensures c in Collected(files + more)
    {
      CollectedMembers(files, c);
      CollectedMembers(files + more, c);
      var f :| f in files && c in FileKanji(f);
      assert f in files + more;
    }
  }

  /** Adding lines to a file never removes a character from the result. */
  lemma MoreLinesMoreKanji(lines: seq<string>, more: seq<string>)
    ensures LinesKanji(lines) <= LinesKanji(lines + more)
  {
    forall c | c in LinesKanji(lines)
      ensures c in LinesKanji(lines + more)
    {
      LinesKanjiMembers(lines, c);
      LinesKanjiMembers(lines + more, c);
      var j :| 0 <= j < |lines| && c in lines[j];
      assert (lines + more)[j] == lines[j];
    }
  }

  /**
   * Collects the distinct kanji of all files, line by line. A file that is not
   * found, or that fails part-way, is reported and skipped; what its lines
   * produced before the failure stays in the set.
   */
  method CountUniqueKanji(files: seq<InputFile>) returns (unique: set<char>)
    ensures unique == Collected(files)
    ensures forall c :: c in unique ==> IsKanji(c)
  {
    unique := {};
    var i := 0;
    while i < |files|
      invariant 0 <= i <= |files|
      invariant unique == Collected(files[..i])
    {
      match files[i] {
        case NotFound =>
        case Opened(lines, _) =>
          var j := 0;
          while j < |lines|
            invariant 0 <= j <= |lines|
            invariant unique == Collected(files[..i]) + LinesKanji(lines[..j])
          {
            assert lines[..j + 1][..j] == lines[..j];
            unique := unique + LineKanji(lines[j]);
            j := j + 1;
          }
          assert lines[..j] == lines;
      }
      assert files[..i + 1][..i] == files[..i];
      i := i + 1;
    }
    assert files[..i] == files;
    forall c | c in unique
      ensures IsKanji(c)
    {
      CollectedExactly(files, c);
    }
  }

  predicate StrictlyIncreasing(s: string)
  {
    forall i, j :: 0 <= i < j < |s| ==> s[i] < s[j]
  }

  /** Every non-empty finite set of characters has a least element. */
  lemma {:induction false} HasLeast(s: set<char>)
    requires s != {}
    ensures exists m :: m in s && forall x :: x in s ==> m <= x
    decreases s
  {
    var y :| y in s;
    if s != {y} {
      HasLeast(s - {y});
      var m :| m in s - {y} && forall x :: x in s - {y} ==> m <= x;
      var least := if y < m then y else m;
      forall x | x in s
        ensures least <= x
      {
        if x != y {
          assert x in s - {y};
        }
      }
    } else {
      assert forall x :: x in s ==> y <= x;
    }
  }

  /** The characters of a set joined in ascending code-point order: strictly increasing, each member exactly once. */
  function SortedJoin(s: set<char>): (r: string)
    ensures StrictlyIncreasing(r)
    ensures forall c :: c in r <==> c in s
    ensures |r| == |s|
    decreases s
  {
    if s == {} then ""
    else
      HasLeast(s);
      var m :| m in s && forall x :: x in s ==> m <= x;
      [m] + SortedJoin(s - {m})
  }

  /** The script's report: how many distinct kanji were found and the sorted string of them. */
  datatype Report = Report(count: nat, kanji: string)

  /** Runs the collector over the files named on the command line; no file names is a usage error. */
  method RunScript(files: seq<InputFile>) returns (r: Report, usageError: bool)
    ensures usageError <==> files == []
    ensures !usageError ==> r.count == |Collected(files)| && r.kanji == SortedJoin(Collected(files))
    ensures !usageError ==> r.count == |r.kanji|
  {
    if |files| < 1 {
      return Report(0, ""), true;
    }
    var kanjiSet := CountUniqueKanji(files);
    r := Report(|kanjiSet|, SortedJoin(kanjiSet));
    usageError := false;
  }
}
