/**
 The per-line transformations `eval_script` applies before anything reaches
 the engine: the block-comment filter, the test that a line opens a brace or
 bracket block, and the scan of a block line that counts openers and closers
 and turns line breaks into spaces.
 */
module Preprocess {
  import opened CStrings

  /** The only marker that opens a block comment. */
  const CommentStart: seq<char> := "/**"

  /** The only marker that closes a block comment. */
  const CommentEnd: seq<char> := "*/"

  /** A line after the comment filter, and the comment flag after it. */
  datatype Filtered = Filtered(text: seq<char>, comment: bool)

  /**
   The comment filter. Outside a comment, a line containing `CommentStart`
   is cut just before its first occurrence and comment mode begins, whatever
   follows on the line (a `CommentEnd` included). Inside a comment, a line
   containing `CommentEnd` is blanked entirely and comment mode ends. Every
   other line, and the flag, pass through unchanged.
   */
  function FilterComment(buf: seq<char>, comment: bool): (r: Filtered)
    ensures !comment && Contains(buf, CommentStart) ==>
      && r.comment
      && r.text + CommentStart <= buf
      && (forall k :: 0 <= k < |r.text| ==> !OccursAt(buf, CommentStart, k))
    ensures comment && Contains(buf, CommentEnd) ==> r == Filtered([], false)
    ensures !(!comment && Contains(buf, CommentStart)) && !(comment && Contains(buf, CommentEnd)) ==>
      r == Filtered(buf, comment)
  {
    var start := Find(buf, CommentStart, 0);
    if start.Some? && !comment then
      assert buf[start.value..start.value + |CommentStart|] == CommentStart;
      Filtered(buf[..start.value], true)
    else if Contains(buf, CommentEnd) && comment then
      Filtered([], false)
    else
      Filtered(buf, comment)
  }

  /**
   The flag after the filter, as a function of the flag before it: comment
   mode holds afterwards exactly when a `CommentStart` starts it, or it
   held and no `CommentEnd` ends it.
   */
  lemma FilterFlag(buf: seq<char>, comment: bool)
    ensures FilterComment(buf, comment).comment <==>
      (!comment && Contains(buf, CommentStart)) || (comment && !Contains(buf, CommentEnd))
  {
  }

  /** The filter never lengthens a line, and what it keeps is a prefix of it. */
  lemma FilterPrefix(buf: seq<char>, comment: bool)
    ensures FilterComment(buf, comment).text <= buf
  {
    var r := FilterComment(buf, comment);
    if !comment && Contains(buf, CommentStart) {
      assert r.text == (r.text + CommentStart)[..|r.text|];
    }
  }

  /** Whatever the filter lets through outside a comment holds no `CommentStart`. */
  lemma FilterOutside(buf: seq<char>, comment: bool)
    ensures var r := FilterComment(buf, comment);
      !r.comment ==> !Contains(r.text, CommentStart)
  {
  }

  /**
   The block test: the line contains the opener and does not contain the
   closer (`strstr(buffer, "{") != NULL && strstr(buffer, "}") == NULL`).
   */
  predicate Opens(buf: seq<char>, open: char, close: char)
  {
    Contains(buf, [open]) && !Contains(buf, [close])
  }

  /** The block test is a statement about which characters occur in the line. */
  lemma OpensIff(buf: seq<char>, open: char, close: char)
    ensures Opens(buf, open, close) <==> open in buf && close !in buf
  {
    ContainsChar(buf, open);
    ContainsChar(buf, close);
  }

  /** A line break as the block scan sees one. */
  predicate IsBreak(c: char)
  {
    c == '\n' || c == '\r'
  }

  /** One character after the scan: a line break becomes a space. */
  function SpaceOf(c: char): (r: char)
    ensures !IsBreak(r)
    ensures !IsBreak(c) ==> r == c
  {
    if IsBreak(c) then ' ' else c
  }

  /** A block line with each line break replaced by a space and every other character kept. */
  function Spaced(s: seq<char>): (r: seq<char>)
    ensures |r| == |s|
    ensures forall i :: 0 <= i < |s| ==> r[i] == SpaceOf(s[i])
  {
    if s == [] then []
    else [SpaceOf(s[0])] + Spaced(s[1..])
  }

  /** No line break survives the scan. */
  predicate NoBreaks(s: seq<char>)
  {
    forall i :: 0 <= i < |s| ==> !IsBreak(s[i])
  }

  lemma SpacedNoBreaks(s: seq<char>)
    ensures NoBreaks(Spaced(s))
  {
  }

  /** How much one line moves the shared `braces` counter. */
  function Net(s: seq<char>, open: char, close: char): int
  {
    Count(s, open) - Count(s, close)
  }

  /**
   The `for` loop over one block line, which runs up to `strlen(buffer)`:
   each opener before the first NUL adds one to `braces`, each closer takes
   one away, and each line break there is overwritten with a space; the
   bytes from the NUL on are left alone, so the C string read back is the
   scanned one. The counter is unbounded here; the source's `size_t` would
   wrap below zero, which differs only in the value, not in when it is
   zero, for any line count the machine can hold.
   */
  method ScanLine(buf: seq<char>, open: char, close: char, braces: int)
    returns (depth: int, line: seq<char>)
    ensures depth == braces + multiset(CStr(buf))[open] - multiset(CStr(buf))[close]
    ensures line == Spaced(CStr(buf)) + buf[|CStr(buf)|..]
    ensures CStr(line) == Spaced(CStr(buf))
  {
    var c := CStr(buf);
    CStrPrefix(buf);
    line := buf;
    depth := braces;
    var i := 0;
    while i < |c|
      invariant 0 <= i <= |c| <= |line| == |buf|
      invariant depth == braces + Count(c[..i], open) - Count(c[..i], close)
      invariant forall k :: 0 <= k < i ==> line[k] == SpaceOf(c[k])
      invariant forall k :: i <= k < |line| ==> line[k] == buf[k]
    {
      assert c[..i + 1] == c[..i] + [c[i]];
      assert buf[i] == c[i];
      CountSnoc(c[..i], c[i], open);
      CountSnoc(c[..i], c[i], close);
      if line[i] == open {
        depth := depth + 1;
      }
      if line[i] == close {
        depth := depth - 1;
      }
      if IsBreak(line[i]) {
        line := line[i := ' '];
      }
      i := i + 1;
    }
    assert c[..i] == c;
    CountIsMultiset(c, open);
    CountIsMultiset(c, close);
    SpacedIs(c, line[..i]);
    assert line == line[..i] + buf[i..];
    SpacedKeepsNul(c);
    CStrOfTerminated(Spaced(c), buf[i..]);
  }

  /** The scan turns no character into a NUL. */
  lemma SpacedKeepsNul(s: seq<char>)
    requires '\0' !in s
    ensures '\0' !in Spaced(s)
  {
    forall k | 0 <= k < |s| ensures Spaced(s)[k] != '\0' {
      assert s[k] in s;
    }
  }

  /** A line that is the input with each character scanned is `Spaced`. */
  lemma SpacedIs(s: seq<char>, r: seq<char>)
    requires |r| == |s| && forall k :: 0 <= k < |s| ==> r[k] == SpaceOf(s[k])
    ensures r == Spaced(s)
  {
  }
}
