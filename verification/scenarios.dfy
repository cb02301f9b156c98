/**
 A concrete input that separates the copy offset of `block_append` as
 written from the corrected one.
 */
module Scenarios {
  import opened CStrings
  import opened Block
  import opened Preprocess
  import opened Script

  /**
   Two texts appended to a fresh buffer as written lose the first one's
   last character; with the corrected offset they are joined intact.
   */
  lemma OffByOne(a: seq<char>, b: seq<char>)
    requires a == "ab" && b == "cd"
    ensures LiveText(AppendAll(Fresh, [a, b]).data) == "acd"
    ensures LiveText(AppendAllFixed(Fresh, [a, b]).data) == "abcd"
  {
    FreshIsTidy();
    AppendAllSpliced(Fresh, [a, b]);
    AppendAllFixedJoined(Fresh, [a, b]);
    Pair(a, b);
  }

  /** What the two offsets make of two non-empty lines without NUL. */
  lemma Pair(a: seq<char>, b: seq<char>)
    requires '\0' !in a && '\0' !in b && a != [] && b != []
    ensures Joined([a, b]) == a + b
    ensures Spliced([a, b]) == a[..|a| - 1] + b
  {
    CStrOfNulFree(a);
    CStrOfNulFree(b);
    assert [a, b][1..] == [b];
    assert [b][1..] == [];
    assert b + [] == b;
    assert Joined([b]) == b;
  }
  /**
   The defect through the whole loader: a brace block whose first line is cut
   by the comment filter, so that no line-break space stands at its end. As
   written the block's opening brace is overwritten; corrected it survives.
   The line itself is not executed, since comment mode is on.
   */
  lemma CommentCutBlock(lines: seq<seq<char>>)
    requires lines == ["f = {/** c\n", "}\n"]
    ensures Schedule(lines, 0, Initial, AsWritten) == Units([Call(BraceBlock, "f = } ")], true)
    ensures Schedule(lines, 0, Initial, Corrected) == Units([Call(BraceBlock, "f = {} ")], true)
  {
    CutBlockSchedule(lines, AsWritten);
    CutBlockSchedule(lines, Corrected);
    CutBlockTexts();
  }

  /** The two units of the cut block. */
  lemma CutBlockTexts()
    ensures BlockText(["f = {", "} "], AsWritten) == "f = } "
    ensures BlockText(["f = {", "} "], Corrected) == "f = {} "
  {
    Pair("f = {", "} ");
  }

  lemma CutBlockSchedule(lines: seq<seq<char>>, v: Variant)
    requires lines == ["f = {/** c\n", "}\n"]
    ensures Schedule(lines, 0, Initial, v) ==
      Units([Call(BraceBlock, BlockText(["f = {", "} "], v))], true)
  {
    FreshIsTidy();
    CutLine(lines[0]);
    CutGather(lines);
    OneBlockThenEnd(lines, "f = {", ["f = {", "} "], v);
  }

  /**
   A two-line script whose first line, once filtered, opens a brace block
   and turns comment mode on, and whose block takes both lines, makes
   exactly one call: the block.
   */
  lemma OneBlockThenEnd(lines: seq<seq<char>>, t: seq<char>, ts: seq<seq<char>>, v: Variant)
    requires |lines| == 2
    requires FilterComment(CStr(lines[0]), false) == Filtered(t, true) && Opens(t, '{', '}')
    requires Gather(Avail(lines, 1, t), '{', '}', 0) == Some(ts) && |ts| == 2
    ensures Schedule(lines, 0, Initial, v) == Units([Call(BraceBlock, BlockText(ts, v))], true)
  {
    FreshIsTidy();
    IterationBrace(lines, 0, Initial, v);
    IterationBraceResumes(lines, 0, Initial, v);
    IterationStatement(lines, 0, Initial, v);
    var p := Iteration(lines, 0, Initial, v);
    assert Calls(p) == [Call(BraceBlock, BlockText(ts, v))];
    ScheduleStep(lines, 0, Initial, v);
  }

  /** The comment filter cuts the first line just before the marker and turns comment mode on. */
  lemma CutLine(l: seq<char>)
    requires l == "f = {/** c\n"
    ensures CStr(l) == l
    ensures FilterComment(CStr(l), false) == Filtered("f = {", true)
    ensures Opens("f = {", '{', '}')
  {
    assert '\0' !in l;
    CStrOfNulFree(l);
    assert OccursAt(l, CommentStart, 5);
    forall k | 0 <= k < 5
      ensures !OccursAt(l, CommentStart, k)
    {
      assert l[k..k + 3][0] == l[k];
    }
    assert l[..5] == "f = {";
    OpensIff("f = {", '{', '}');
  }

  /** The block: the cut first line, then the closing line, scanned. */
  lemma CutGather(lines: seq<seq<char>>)
    requires lines == ["f = {/** c\n", "}\n"]
    ensures Avail(lines, 1, "f = {") == ["f = {", "}\n"]
    ensures Gather(["f = {", "}\n"], '{', '}', 0) == Some(["f = {", "} "])
  {
    assert '\0' !in lines[1];
    CStrOfNulFree(lines[1]);
    assert lines[1..] == ["}\n"];
    var ls: seq<seq<char>> := ["f = {", "}\n"];
    assert ls[1..] == ["}\n"];
    assert Net("f = {", '{', '}') == 1;
    assert Net("}\n", '{', '}') == -1;
    assert Spaced("f = {") == "f = {";
    assert Spaced("}\n") == "} ";
    assert Gather(ls[1..], '{', '}', 1) == Some(["} "]);
    assert Gather(ls, '{', '}', 0) == Some([Spaced(ls[0])] + ["} "]);
    assert [Spaced(ls[0])] + ["} "] == ["f = {", "} "];
  }
}
