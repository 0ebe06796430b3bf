/** The pure helpers of JavaCodeAdapter: character classes, comment stripping, trimming,
    the indentation policy for a new line, line bounds, indentation counting and the
    number recogniser. The painting passes that use them are not part of this model. */
module JavaCodeAdapter {
  import opened Results
  import Lines

  // ---------------------------------------------------------------------------------------
  // Indentation policy flags

  const NONE: int := 0
  const LEFT_STYLE_LEFT_BRACKET: int := 1
  const RIGHT_STYLE_LEFT_BRACKET: int := 2
  const RIGHT_CLEAR_RIGHT_BRACKET: int := 4
  const LEFT_CLEAR_RIGHT_BRACKET: int := 8
  const WHILE_DO_FOR_IF_ELSE: int := 16

  // ---------------------------------------------------------------------------------------
  // Character classes

  /** isNameAllowed: the class [a-zA-Z0-9_]. */
  predicate IsNameAllowed(c: char) {
    ('a' <= c <= 'z') || ('A' <= c <= 'Z') || ('0' <= c <= '9') || c == '_'
  }

  /** isSpaceWord: tab, line feed, form feed, carriage return and space. */
  predicate IsSpaceWord(c: char) {
    c == '\t' || c == '\n' || c == '\U{000C}' || c == '\r' || c == ' '
  }

  /** The literal the bracket table is built from. Its "\\[" and "\\]" put a backslash
      before each square bracket, so the backslash is a bracket too. */
  const Bracket: string := "-+*/()\\[\\]{}<>:"

  /** isBracket: a linear search of the bracket table. */
  method IsBracket(c: char) returns (b: bool)
    ensures b <==> c in {'-', '+', '*', '/', '(', ')', '\\', '[', ']', '{', '}', '<', '>', ':'}
  {
    assert Bracket == ['-', '+', '*', '/', '(', ')', '\\', '[', '\\', ']', '{', '}', '<', '>', ':'];
    var i := 0;
    while i < |Bracket|
      invariant 0 <= i <= |Bracket|
      invariant forall k :: 0 <= k < i ==> Bracket[k] != c
    {
      if c == Bracket[i] {
        return true;
      }
      i := i + 1;
    }
    assert c !in Bracket;
    return false;
  }

  // ---------------------------------------------------------------------------------------
  // Comments

  /** A comment delimiter starts at `i`: "/*" or "*/". */
  predicate DelimiterAt(s: string, i: int) {
    0 <= i && i + 1 < |s| && ((s[i] == '/' && s[i + 1] == '*') || (s[i] == '*' && s[i + 1] == '/'))
  }

  /** containAnnotation: scan the adjacent pairs for a comment delimiter. */
  method ContainAnnotation(change: string) returns (b: bool)
    ensures b <==> exists i :: DelimiterAt(change, i)
  {
    var i := 0;
    while i + 1 < |change|
      invariant 0 <= i
      invariant forall k :: 0 <= k < i ==> !DelimiterAt(change, k)
    {
      if change[i] == '/' && change[i + 1] == '*' {
        assert DelimiterAt(change, i);
        return true;
      }
      if change[i] == '*' && change[i + 1] == '/' {
        assert DelimiterAt(change, i);
        return true;
      }
      i := i + 1;
    }
    return false;
  }

  /** The text kept from `s` when reading outside a block comment. */
  function Strip(s: string): (r: string)
    ensures |r| <= |s|
    decreases |s|, 1
  {
    if |s| >= 2 && s[0] == '/' && s[1] == '*' then InComment(s[2..])
    else if |s| >= 2 && s[0] == '/' && s[1] == '/' then ""
    else if |s| == 0 then ""
    else [s[0]] + Strip(s[1..])
  }

  /** The text kept from `s` when reading inside a block comment. */
  function InComment(s: string): (r: string)
    ensures |r| <= |s|
    decreases |s|, 0
  {
    if |s| >= 2 && s[0] == '*' && s[1] == '/' then Strip(s[2..])
    else if |s| == 0 then ""
    else InComment(s[1..])
  }

  /** removeInvalidWord: one pass with an in-comment flag; `i` skips the second character
      of each delimiter. */
  method RemoveInvalidWord(str: string) returns (r: string)
    ensures r == Strip(str)
  {
    var inPs := false;
    var builder := "";
    var i := 0;
    while i < |str|
      invariant 0 <= i <= |str|
      invariant builder + (if inPs then InComment(str[i..]) else Strip(str[i..])) == Strip(str)
    {
      var rest := str[i..];
      if inPs {
        if i + 1 < |str| && str[i] == '*' && str[i + 1] == '/' {
          assert rest[2..] == str[i + 2..];
          inPs := false;
          i := i + 2;
        } else {
          assert rest[1..] == str[i + 1..];
          i := i + 1;
        }
        continue;
      }
      if i + 1 < |str| && str[i] == '/' && str[i + 1] == '*' {
        assert rest[2..] == str[i + 2..];
        inPs := true;
        i := i + 2;
      } else if i + 1 < |str| && str[i] == '/' && str[i + 1] == '/' {
        return builder;
      } else {
        assert rest[1..] == str[i + 1..];
        builder := builder + [str[i]];
        i := i + 1;
      }
    }
    assert str[i..] == [];
    return builder;
  }

  /** Code outside comments that opens none: no '/' is followed by '/' or '*', and the
      text does not end in a '/' that could pair with what follows it. */
  predicate PlainCode(a: string) {
    && (forall k :: 0 <= k < |a| - 1 ==> !(a[k] == '/' && (a[k + 1] == '/' || a[k + 1] == '*')))
    && (|a| == 0 || a[|a| - 1] != '/')
  }

  /** Comment text that does not close the comment: no '*' is followed by '/'. */
  predicate NoCloser(a: string) {
    forall k :: 0 <= k < |a| - 1 ==> !(a[k] == '*' && a[k + 1] == '/')
  }

  /** Plain code is kept whole, and what follows it is read as usual. */
  lemma {:induction false} StripPlain(a: string, b: string)
    requires PlainCode(a)
    ensures Strip(a + b) == a + Strip(b)
    decreases |a|
  {
    if |a| > 0 {
      var s := a + b;
      assert s[0] == a[0];
      assert s[1..] == a[1..] + b;
      if |a| > 1 {
        assert s[1] == a[1];
      }
      assert !(|s| >= 2 && s[0] == '/' && (s[1] == '*' || s[1] == '/'));
      StripPlain(a[1..], b);
    } else {
      assert a + b == b;
    }
  }

  /** Inside a comment, text that does not close it is skipped, and what follows it is
      still read as comment, unless a '*' at its end and a '/' after it close it. */
  lemma {:induction false} InCommentSkips(a: string, b: string)
    requires NoCloser(a)
    requires |a| == 0 || |b| == 0 || !(a[|a| - 1] == '*' && b[0] == '/')
    ensures InComment(a + b) == InComment(b)
    decreases |a|
  {
    if |a| > 0 {
      var s := a + b;
      assert s[0] == a[0];
      assert s[1..] == a[1..] + b;
      if |a| > 1 {
        assert s[1] == a[1];
      } else if |b| > 0 {
        assert s[1] == b[0];
      }
      assert !(|s| >= 2 && s[0] == '*' && s[1] == '/');
      InCommentSkips(a[1..], b);
    } else {
      assert a + b == b;
    }
  }

  /** Inside a comment that never ends, everything is dropped. */
  lemma {:induction false} UnterminatedCommentSwallows(s: string)
    requires NoCloser(s)
    ensures InComment(s) == ""
    decreases |s|
  {
    if |s| > 0 {
      UnterminatedCommentSwallows(s[1..]);
    }
  }

  lemma OpenComment(x: string)
    ensures Strip("/*" + x) == InComment(x)
  {
    assert ("/*" + x)[2..] == x;
  }

  lemma CloseComment(x: string)
    ensures InComment("*/" + x) == Strip(x)
  {
    assert ("*/" + x)[2..] == x;
  }

  lemma LineComment(x: string)
    ensures Strip("//" + x) == ""
  {
    assert ("//" + x)[0] == '/' && ("//" + x)[1] == '/';
  }

  /** A block comment is deleted and reading resumes after it. */
  lemma CommentsRemoved(a: string, b: string, c: string)
    requires PlainCode(a) && NoCloser(b)
    ensures Strip(a + "/*" + b + "*/" + c) == a + Strip(c)
  {
    assert a + "/*" + b + "*/" + c == a + ("/*" + (b + ("*/" + c)));
    StripPlain(a, "/*" + (b + ("*/" + c)));
    OpenComment(b + ("*/" + c));
    InCommentSkips(b, "*/" + c);
    CloseComment(c);
  }

  /** A division is kept and a Javadoc comment, whose body starts with '*', is deleted. */
  lemma DivisionAndJavadoc()
    ensures Strip("a/b/**x*/c") == "a/bc"
  {
    assert PlainCode("a/b") && NoCloser("*x");
    CommentsRemoved("a/b", "*x", "c");
    assert "a/b" + "/*" + "*x" + "*/" + "c" == "a/b/**x*/c";
    assert Strip("c") == "c" by {
      assert "c"[1..] == "";
    }
  }

  /** A "//" outside a comment ends the text kept. */
  lemma LineCommentEndsText(a: string, c: string)
    requires PlainCode(a)
    ensures Strip(a + "//" + c) == a
  {
    StripPlain(a, "//" + c);
    LineComment(c);
    assert a + "//" + c == a + ("//" + c);
    assert a + "" == a;
  }

  /** A block comment that is never closed drops everything after its opening. */
  lemma UnclosedCommentDropsRest(a: string, c: string)
    requires PlainCode(a) && NoCloser(c)
    ensures Strip(a + "/*" + c) == a
  {
    assert a + "/*" + c == a + ("/*" + c);
    StripPlain(a, "/*" + c);
    OpenComment(c);
    UnterminatedCommentSwallows(c);
    assert a + "" == a;
  }

  // ---------------------------------------------------------------------------------------
  // Trimming

  predicate AllSpace(s: string) {
    forall k :: 0 <= k < |s| ==> IsSpaceWord(s[k])
  }

  /** Every character of `s` from `lo` up to `hi` is a space character. */
  predicate SpacesBetween(s: string, lo: int, hi: int) {
    forall k :: lo <= k < hi && 0 <= k < |s| ==> IsSpaceWord(s[k])
  }

  /** The number of space characters `s` starts with. */
  function LeadingSpaces(s: string): (i: nat)
    ensures i <= |s| && SpacesBetween(s, 0, i)
    ensures i == |s| || !IsSpaceWord(s[i])
  {
    if |s| == 0 || !IsSpaceWord(s[0]) then 0
    else
      var i := 1 + LeadingSpaces(s[1..]);
      assert forall k :: 1 <= k < i ==> s[k] == s[1..][k - 1];
      i
  }

  /** The length of `s` without the space characters it ends with. */
  function TrailingEnd(s: string): (j: nat)
    ensures j <= |s| && SpacesBetween(s, j, |s|)
    ensures j == 0 || !IsSpaceWord(s[j - 1])
  {
    if |s| == 0 || !IsSpaceWord(s[|s| - 1]) then |s|
    else
      var j := TrailingEnd(s[..|s| - 1]);
      assert forall k :: j <= k < |s| - 1 ==> s[k] == s[..|s| - 1][k];
      j
  }

  lemma LeadingSpacesUnique(s: string, i: nat)
    requires i <= |s| && SpacesBetween(s, 0, i) && (i == |s| || !IsSpaceWord(s[i]))
    ensures LeadingSpaces(s) == i
  {
    var n := LeadingSpaces(s);
    if n < |s| {
      assert !IsSpaceWord(s[n]);
    }
  }

  lemma TrailingEndUnique(s: string, j: nat)
    requires j <= |s| && SpacesBetween(s, j, |s|) && (j == 0 || !IsSpaceWord(s[j - 1]))
    ensures TrailingEnd(s) == j
  {
    var n := TrailingEnd(s);
    if n > 0 {
      assert !IsSpaceWord(s[n - 1]);
    }
  }

  /** `s` with its leading and trailing space characters removed. */
  function Trim(s: string): (r: string)
    ensures |r| == 0 <==> AllSpace(s)
    ensures |r| > 0 ==> !IsSpaceWord(r[0]) && !IsSpaceWord(r[|r| - 1])
    ensures exists i :: && 0 <= i <= |s| - |r| && s[i..i + |r|] == r
                        && SpacesBetween(s, 0, i) && SpacesBetween(s, i + |r|, |s|)
  {
    var i := LeadingSpaces(s);
    if i == |s| then
      assert s[0..0] == "";
      ""
    else
      var j := TrailingEnd(s);
      assert !IsSpaceWord(s[i]);
      s[i..j]
  }

  /** Trimming twice is trimming once. */
  lemma TrimIdempotent(s: string)
    ensures Trim(Trim(s)) == Trim(s)
  {
    var r := Trim(s);
    if |r| > 0 {
      LeadingSpacesUnique(r, 0);
      TrailingEndUnique(r, |r|);
      assert r[0..|r|] == r;
    }
  }

  /** clearSpaceWord: skip the leading space characters, then cut after the last
      character that is not one. */
  method ClearSpaceWord(str: string) returns (r: string)
    ensures r == Trim(str)
  {
    if |str| == 0 {
      return str;
    }
    var j := 0;
    while j < |str| && IsSpaceWord(str[j])
      invariant 0 <= j <= |str|
      invariant SpacesBetween(str, 0, j)
    {
      j := j + 1;
    }
    SkipLeadingSpaces(str, j);
    var s := str[j..];
    var e := |s| - 1;
    while e > 0 && IsSpaceWord(s[e])
      invariant -1 <= e < |s|
      invariant SpacesBetween(s, e + 1, |s|)
    {
      e := e - 1;
    }
    if e >= 0 {
      TrailingEndUnique(s, e + 1);
      s := s[..e + 1];
    }
    return s;
  }

  /** Dropping the leading space characters does not change the trimmed text. */
  lemma SkipLeadingSpaces(s: string, i: nat)
    requires i <= |s| && SpacesBetween(s, 0, i) && (i == |s| || !IsSpaceWord(s[i]))
    ensures Trim(s[i..]) == Trim(s)
    ensures i < |s| ==> LeadingSpaces(s[i..]) == 0
  {
    LeadingSpacesUnique(s, i);
    var rest := s[i..];
    if i < |s| {
      LeadingSpacesUnique(rest, 0);
      TrailingEndShift(s, i);
      var j := TrailingEnd(s);
      calc {
        Trim(rest);
        rest[0..j - i];
        { assert rest[0..j - i] == s[i..j]; }
        s[i..j];
        Trim(s);
      }
    }
  }

  /** Cutting off a prefix that ends before a character that is not a space moves the end
      of the text without its trailing spaces by the prefix's length. */
  lemma TrailingEndShift(s: string, i: nat)
    requires i < |s| && !IsSpaceWord(s[i])
    ensures i < TrailingEnd(s) && TrailingEnd(s[i..]) == TrailingEnd(s) - i
  {
    var j := TrailingEnd(s);
    var rest := s[i..];
    assert forall k :: j - i <= k < |rest| ==> rest[k] == s[k + i];
    TrailingEndUnique(rest, j - i);
  }

  // ---------------------------------------------------------------------------------------
  // Indentation policy for a new line

  /** The words the policy reacts to: the alternatives of "for|while|do|if|else". */
  predicate IsKeyword(w: string) {
    w == "for" || w == "while" || w == "do" || w == "if" || w == "else"
  }

  /** A whole word of `line` from `i` to `j` is a keyword: nothing that may be part of a
      name touches it on either side. */
  predicate KeywordAt(line: string, i: int, j: int) {
    && 0 <= i <= j <= |line|
    && IsKeyword(line[i..j])
    && (i == 0 || !IsNameAllowed(line[i - 1]))
    && (j == |line| || !IsNameAllowed(line[j]))
  }

  /** The inner loop of the word scan: from `end`, step over characters that cannot be part
      of a name. */
  function SkipNonName(line: string, end: nat): (e: nat)
    requires end <= |line|
    ensures end <= e <= |line|
    ensures forall k :: end <= k < e ==> !IsNameAllowed(line[k])
    ensures e == |line| || IsNameAllowed(line[e])
    decreases |line| - end
  {
    if end < |line| && !IsNameAllowed(line[end]) then SkipNonName(line, end + 1) else end
  }

  /** The word loop of newLineTabPolicy: `begin` starts the current word and `end` looks for
      its end. At each word end the word is compared against the keywords, provided the
      line does not end with ';'. */
  function KeywordScan(line: string, begin: nat, end: nat): bool
    requires begin <= end <= |line| + 1
    decreases |line| + 1 - end
  {
    if end > |line| then false
    else if end == |line| || !IsNameAllowed(line[end]) then
      if IsKeyword(line[begin..end]) && line[|line| - 1] != ';' then true
      else
        var e := SkipNonName(line, end);
        KeywordScan(line, e, e + 1)
    else KeywordScan(line, begin, end + 1)
  }

  /** A keyword is made of name characters only. */
  lemma KeywordIsName(w: string)
    requires IsKeyword(w)
    ensures |w| > 0 && forall k :: 0 <= k < |w| ==> IsNameAllowed(w[k])
  {
  }

  /** A whole-word keyword of a line spans name characters only. */
  lemma KeywordWordIsName(line: string, i: int, j: int)
    requires KeywordAt(line, i, j)
    ensures i < j && forall k :: i <= k < j ==> IsNameAllowed(line[k])
  {
    KeywordIsName(line[i..j]);
    assert forall k :: i <= k < j ==> line[k] == line[i..j][k - i];
  }

  /** A whole-word keyword starting inside the word from `begin` to `end` is that word. */
  lemma KeywordInWord(line: string, begin: nat, end: nat, i: int, j: int)
    requires begin <= end <= |line| && (end == |line| || !IsNameAllowed(line[end]))
    requires begin == 0 || begin == |line| || !IsNameAllowed(line[begin - 1])
    requires forall k :: begin <= k < end ==> IsNameAllowed(line[k])
    requires begin <= i < end && KeywordAt(line, i, j)
    ensures i == begin && j == end
  {
    KeywordWordIsName(line, i, j);
    if i > 0 {
      assert !IsNameAllowed(line[i - 1]);
    }
    if j < |line| {
      assert !IsNameAllowed(line[j]);
    }
    if end < |line| {
      assert !IsNameAllowed(line[end]);
    }
  }

  /** When the word from `begin` to `end` is not a keyword, the next keyword at or after
      `begin` starts no earlier than the next word. */
  lemma KeywordAfterSkip(line: string, begin: nat, end: nat, i: int, j: int)
    requires begin <= end <= |line| && (end == |line| || !IsNameAllowed(line[end]))
    requires begin == 0 || begin == |line| || !IsNameAllowed(line[begin - 1])
    requires forall k :: begin <= k < end ==> IsNameAllowed(line[k])
    requires !IsKeyword(line[begin..end])
    requires begin <= i && KeywordAt(line, i, j)
    ensures SkipNonName(line, end) <= i
  {
    KeywordWordIsName(line, i, j);
    if i < end {
      KeywordInWord(line, begin, end, i, j);
    }
    assert IsNameAllowed(line[i]);
  }

  /** From a word start, the scan finds a keyword exactly when there is a whole-word
      keyword at or after that start and the line does not end with ';'. */
  lemma {:induction false} KeywordScanFinds(line: string, begin: nat, end: nat)
    requires begin <= end <= |line| + 1 && begin <= |line|
    requires end == |line| + 1 ==> begin == |line|
    requires begin == 0 || begin == |line| || !IsNameAllowed(line[begin - 1])
    requires forall k :: begin <= k < end && k < |line| ==> IsNameAllowed(line[k])
    ensures KeywordScan(line, begin, end) <==>
              |line| > 0 && line[|line| - 1] != ';' &&
              exists i, j :: begin <= i && KeywordAt(line, i, j)
    decreases |line| + 1 - end
  {
    if end > |line| {
      forall i, j | KeywordAt(line, i, j) ensures i < j {
        KeywordWordIsName(line, i, j);
      }
    } else if end == |line| || !IsNameAllowed(line[end]) {
      if IsKeyword(line[begin..end]) && line[|line| - 1] != ';' {
        assert KeywordAt(line, begin, end);
      } else {
        var e := SkipNonName(line, end);
        KeywordScanFinds(line, e, e + 1);
        if |line| > 0 && line[|line| - 1] != ';' {
          forall i, j | begin <= i && KeywordAt(line, i, j) ensures e <= i {
            KeywordAfterSkip(line, begin, end, i, j);
          }
        }
      }
    } else {
      KeywordScanFinds(line, begin, end + 1);
    }
  }

  /** The whole-line form of the word scan. */
  ghost predicate HasKeyword(line: string) {
    |line| > 0 && line[|line| - 1] != ';' && exists i, j :: KeywordAt(line, i, j)
  }

  /** The code of a line: comments removed, then the space characters at both ends. */
  function Code(line: string): string {
    Trim(Strip(line))
  }

  /** newLineTabPolicy: how a new line after `thisLine` is to be indented, as a combination
      of the flags above, read from the first and last characters of the code of the line
      and, when neither is a brace, from the keywords of the raw line. */
  function NewLineTabPolicy(thisLine: string): (r: int)
    ensures var m := Code(thisLine);
            && (r == RIGHT_STYLE_LEFT_BRACKET + RIGHT_CLEAR_RIGHT_BRACKET + LEFT_CLEAR_RIGHT_BRACKET <==>
                  |m| > 0 && m[0] == '}' && m[|m| - 1] == '{')
            && (r == RIGHT_STYLE_LEFT_BRACKET <==> |m| > 1 && m[0] != '}' && m[|m| - 1] == '{')
            && (r == LEFT_STYLE_LEFT_BRACKET <==> m == "{")
            && (r == RIGHT_CLEAR_RIGHT_BRACKET + LEFT_CLEAR_RIGHT_BRACKET <==> m == "}")
            && (r == LEFT_CLEAR_RIGHT_BRACKET <==> |m| > 1 && m[0] == '}' && m[|m| - 1] != '{')
            && (r == WHILE_DO_FOR_IF_ELSE <==>
                  |m| > 0 && m[0] !in "{}" && m[|m| - 1] !in "{}" && HasKeyword(thisLine))
            && (r == NONE <==>
                  |m| == 0
                  || (|m| > 1 && m[0] == '{' && m[|m| - 1] == '}')
                  || (|m| > 1 && m[0] != '}' && m[|m| - 1] == '}' )
                  || (|m| > 1 && m[0] == '{' && m[|m| - 1] != '{' && m[|m| - 1] != '}')
                  || (|m| > 0 && m[0] !in "{}" && m[|m| - 1] !in "{}" && !HasKeyword(thisLine)))
  {
    var modifyLine := Code(thisLine);
    if |modifyLine| == 0 then NONE
    else
      var first := modifyLine[0];
      var last := modifyLine[|modifyLine| - 1];
      if first == '}' && last == '{' then
        RIGHT_STYLE_LEFT_BRACKET + RIGHT_CLEAR_RIGHT_BRACKET + LEFT_CLEAR_RIGHT_BRACKET
      else if last == '{' && |modifyLine| > 1 then RIGHT_STYLE_LEFT_BRACKET
      else if last == '{' && |modifyLine| == 1 then LEFT_STYLE_LEFT_BRACKET
      else if last == '}' && |modifyLine| == 1 then
        RIGHT_CLEAR_RIGHT_BRACKET + LEFT_CLEAR_RIGHT_BRACKET
      else if first == '}' && |modifyLine| > 1 then LEFT_CLEAR_RIGHT_BRACKET
      else if first == '}' || first == '{' || last == '{' || last == '}' then NONE
      else
        KeywordScanFinds(thisLine, 0, 0);
        if KeywordScan(thisLine, 0, 0) then WHILE_DO_FOR_IF_ELSE else NONE
  }

  // ---------------------------------------------------------------------------------------
  // Line bounds and indentation

  /** lineBegin: the first character of `offset`'s line. A '\n' at `offset` counts as the
      end of the line it closes. */
  function LineBegin(offset: int, txt: string): (r: Result<nat>)
    ensures r.Ok? <==> 0 <= offset < |txt|
    ensures !r.Ok? ==> r == Err(ArrayIndexOutOfBounds)
    ensures r.Ok? ==> && r.value <= offset
                      && (r.value == 0 || txt[r.value - 1] == '\n')
                      && forall k :: r.value <= k < offset ==> txt[k] != '\n'
  {
    if offset < 0 || offset >= |txt| then Err(ArrayIndexOutOfBounds)
    else Ok(Lines.ScanBack(txt, if txt[offset] == '\n' then offset - 1 else offset))
  }

  /** The start lineBegin finds is the only position with its three properties. */
  lemma LineBeginUnique(offset: int, txt: string, b: int)
    requires 0 <= offset < |txt|
    requires 0 <= b <= offset && (b == 0 || txt[b - 1] == '\n')
    requires forall k :: b <= k < offset ==> txt[k] != '\n'
    ensures LineBegin(offset, txt) == Ok(b)
  {
    Lines.ScanBackIsLineStart(txt, offset - 1, b);
    if txt[offset] != '\n' {
      Lines.ScanBackIsLineStart(txt, offset, b);
    }
  }

  /** lineEnd: the last character of `offset`'s line. A '\n' at `offset` counts as the
      start of the line it opens, unlike in lineBegin. */
  function LineEnd(offset: int, txt: string): (r: Result<int>)
    ensures r.Ok? <==> 0 <= offset < |txt|
    ensures !r.Ok? ==> r == Err(ArrayIndexOutOfBounds)
    ensures r.Ok? ==> && offset <= r.value < |txt|
                      && (r.value + 1 == |txt| || txt[r.value + 1] == '\n')
                      && forall k :: offset < k <= r.value ==> txt[k] != '\n'
  {
    if offset < 0 || offset >= |txt| then Err(ArrayIndexOutOfBounds)
    else Ok(Lines.ScanForward(txt, if txt[offset] == '\n' then offset + 1 else offset))
  }

  /** The end lineEnd finds is the only position with its three properties. */
  lemma LineEndUnique(offset: int, txt: string, e: int)
    requires 0 <= offset < |txt|
    requires offset <= e < |txt| && (e + 1 == |txt| || txt[e + 1] == '\n')
    requires forall k :: offset < k <= e ==> txt[k] != '\n'
    ensures LineEnd(offset, txt) == Ok(e)
  {
    if txt[offset] == '\n' {
      Lines.ScanForwardIsLineEnd(txt, offset + 1, e);
    } else {
      Lines.ScanForwardIsLineEnd(txt, offset, e);
    }
  }

  /** The two conventions disagree at a '\n': lineBegin puts it on the line it closes and
      lineEnd on the line it opens. */
  lemma NewlineConventions()
    ensures LineBegin(2, "ab\ncd") == Ok(0)
    ensures LineEnd(2, "ab\ncd") == Ok(4)
  {
    LineBeginUnique(2, "ab\ncd", 0);
    LineEndUnique(2, "ab\ncd", 4);
  }

  /** countPrefixTabs: the indentation width of `offset`'s line, counting the tabs and spaces
      that start the line up to `offset`. A negative offset has width 0. */
  function CountPrefixTabs(offset: int, txt: string): (r: Result<nat>)
    ensures r.Ok? <==> offset < |txt|
    ensures !r.Ok? ==> r == Err(ArrayIndexOutOfBounds)
    ensures offset < 0 ==> r == Ok(0)
    ensures r.Ok? && 0 <= offset ==>
              var s := Lines.Segment(txt, offset);
              var run := s[..Lines.BlankRun(s)];
              var tabs := multiset(run)['\t'];
              var spaces := multiset(run)[' '];
              && tabs <= r.value
              && 4 * (r.value - tabs) - 4 < spaces <= 4 * (r.value - tabs)
  {
    if offset >= |txt| then Err(ArrayIndexOutOfBounds)
    else if offset < 0 then Ok(0)
    else
      var (tabs, spaces) := Lines.BlankLoop(txt, offset, 0, 0);
      Lines.IndentCounts(txt, offset);
      Ok(Lines.TabWidth(tabs, spaces))
  }

  // ---------------------------------------------------------------------------------------
  // Number literals

  /** The regular-expression class \d: the ASCII digits. */
  predicate IsDigit(c: char) {
    '0' <= c <= '9'
  }

  /** The characters of `s` from `lo` up to `hi` are digits. */
  predicate DigitsIn(s: string, lo: int, hi: int) {
    forall k :: lo <= k < hi && 0 <= k < |s| ==> IsDigit(s[k])
  }

  /** The first `n` characters of `s` match \d+\.\d* */
  predicate PointAfterDigits(s: string, n: int) {
    exists p :: 0 < p < n <= |s| && s[p] == '.' && DigitsIn(s, 0, p) && DigitsIn(s, p + 1, n)
  }

  /** The first `n` characters of `s` match \.\d+ */
  predicate PointBeforeDigits(s: string, n: int) {
    1 < n <= |s| && s[0] == '.' && DigitsIn(s, 1, n)
  }

  /** The first `n` characters of `s` match \d+ */
  predicate Digits(s: string, n: int) {
    0 < n <= |s| && DigitsIn(s, 0, n)
  }

  /** The type suffixes [fFdD] of a floating-point literal, and with `withLong` also those
      of an integer literal, [fFdDlL]. */
  predicate TypeSuffix(c: char, withLong: bool) {
    c == 'f' || c == 'F' || c == 'd' || c == 'D' || (withLong && (c == 'l' || c == 'L'))
  }

  /** `s` ends with a type suffix. */
  predicate Suffixed(s: string, withLong: bool) {
    |s| > 0 && TypeSuffix(s[|s| - 1], withLong)
  }

  /** The language \d+\.\d*[fFdD]?|\.\d+[fFdD]?|\d+[fFdDlL]?, read alternative by
      alternative: each alternative matches all of `s`, or all but a last character that
      is one of its suffixes. */
  predicate NumberLiteral(s: string) {
    || PointAfterDigits(s, |s|) || (Suffixed(s, false) && PointAfterDigits(s, |s| - 1))
    || PointBeforeDigits(s, |s|) || (Suffixed(s, false) && PointBeforeDigits(s, |s| - 1))
    || Digits(s, |s|) || (Suffixed(s, true) && Digits(s, |s| - 1))
  }

  /** The end of the run of digits in `s` from `i`. */
  function DigitRun(s: string, i: nat): (e: nat)
    requires i <= |s|
    ensures i <= e <= |s|
    ensures forall k :: i <= k < e ==> IsDigit(s[k])
    ensures e == |s| || !IsDigit(s[e])
    decreases |s| - i
  {
    if i < |s| && IsDigit(s[i]) then DigitRun(s, i + 1) else i
  }

  lemma DigitRunUnique(s: string, i: nat, e: nat)
    requires i <= e <= |s|
    requires forall k :: i <= k < e ==> IsDigit(s[k])
    requires e == |s| || !IsDigit(s[e])
    ensures DigitRun(s, i) == e
  {
    var n := DigitRun(s, i);
    if n < |s| {
      assert !IsDigit(s[n]);
    }
    if e < |s| {
      assert !IsDigit(s[e]);
    }
  }

  /** `i` is the end of `s`, or the position of its last character and that character is
      a type suffix. */
  predicate EndsAfterSuffix(s: string, i: nat, withLong: bool) {
    i == |s| || (i == |s| - 1 && TypeSuffix(s[i], withLong))
  }

  /** The digit runs of `str` describe the alternatives on its first `n` characters, when
      `n` ends `str` or stops at a character that is not a digit. */
  lemma PointAfterDigitsRuns(str: string, n: nat)
    requires n <= |str| && (n == |str| || !IsDigit(str[n]))
    ensures var a := DigitRun(str, 0);
            PointAfterDigits(str, n) <==>
              0 < a < n && str[a] == '.' && DigitRun(str, a + 1) == n
  {
    var a := DigitRun(str, 0);
    if PointAfterDigits(str, n) {
      var p :| 0 < p < n <= |str| && str[p] == '.' && DigitsIn(str, 0, p) && DigitsIn(str, p + 1, n);
      DigitRunUnique(str, 0, p);
      DigitRunUnique(str, p + 1, n);
    }
  }

  lemma PointBeforeDigitsRuns(str: string, n: nat)
    requires n <= |str| && (n == |str| || !IsDigit(str[n]))
    ensures PointBeforeDigits(str, n) <==>
              DigitRun(str, 0) == 0 && 1 < n && str[0] == '.' && DigitRun(str, 1) == n
  {
    if PointBeforeDigits(str, n) {
      DigitRunUnique(str, 1, n);
    }
  }

  lemma DigitsRuns(str: string, n: nat)
    requires n <= |str| && (n == |str| || !IsDigit(str[n]))
    ensures Digits(str, n) <==> 0 < DigitRun(str, 0) == n
  {
    if Digits(str, n) {
      DigitRunUnique(str, 0, n);
    }
  }

  /** The one-pass reading of isNumber accepts exactly the number literals. */
  lemma NumberLiteralByRuns(str: string)
    ensures NumberLiteral(str) <==>
              var a := DigitRun(str, 0);
              if a < |str| && str[a] == '.' then
                var f := DigitRun(str, a + 1);
                (a > 0 || f > a + 1) && EndsAfterSuffix(str, f, false)
              else a > 0 && EndsAfterSuffix(str, a, true)
  {
    PointAfterDigitsRuns(str, |str|);
    PointBeforeDigitsRuns(str, |str|);
    DigitsRuns(str, |str|);
    if |str| > 0 && !IsDigit(str[|str| - 1]) {
      PointAfterDigitsRuns(str, |str| - 1);
      PointBeforeDigitsRuns(str, |str| - 1);
      DigitsRuns(str, |str| - 1);
    }
  }

  /** isNumber: digits, then an optional point and digits, then an optional type suffix,
      read in one pass. */
  function IsNumber(str: string): (b: bool)
    ensures b <==> NumberLiteral(str)
  {
    NumberLiteralByRuns(str);
    var a := DigitRun(str, 0);
    if a < |str| && str[a] == '.' then
      var f := DigitRun(str, a + 1);
      (a > 0 || f > a + 1) && EndsAfterSuffix(str, f, false)
    else a > 0 && EndsAfterSuffix(str, a, true)
  }

  /** Literals with and without a point or a suffix. */
  lemma NumberExamples()
    ensures IsNumber("42L") && IsNumber("1.5f") && IsNumber(".5") && IsNumber("1.")
  {
    DigitRunUnique("42L", 0, 2);
    DigitRunUnique("1.5f", 0, 1);
    DigitRunUnique("1.5f", 2, 3);
    DigitRunUnique(".5", 0, 0);
    DigitRunUnique(".5", 1, 2);
    DigitRunUnique("1.", 0, 1);
    DigitRunUnique("1.", 2, 2);
  }

  /** The near misses: a lone point, a long suffix after a point, and an exponent. */
  lemma NonNumberExamples()
    ensures !IsNumber(".") && !IsNumber("1.5L") && !IsNumber("1e5")
  {
    DigitRunUnique(".", 0, 0);
    DigitRunUnique(".", 1, 1);
    DigitRunUnique("1.5L", 0, 1);
    DigitRunUnique("1.5L", 2, 3);
    DigitRunUnique("1e5", 0, 1);
  }
}
