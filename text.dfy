/**
 * String helpers of the crawler: Python's `str.split` and `''.join` for a
 * one-character separator, the image file name taken from a URL
 * (main.py:219), and the clean-up of the field list read from include.txt
 * (main.py:114-117).
 */
module Text {

  /** `sep.join(parts)` */
  function Join(parts: seq<string>, sep: char): string
    requires |parts| >= 1
    decreases |parts|
  {
    if |parts| == 1 then parts[0] else parts[0] + [sep] + Join(parts[1..], sep)
  }

  /** `''.join(parts)` */
  function Concat(parts: seq<string>): string
  {
    if parts == [] then [] else parts[0] + Concat(parts[1..])
  }

  /** `s` with every occurrence of `c` deleted. */
  function Without(s: string, c: char): (r: string)
    ensures c !in r
    ensures forall x :: x in r ==> x in s
  {
    if s == [] then [] else if s[0] == c then Without(s[1..], c) else [s[0]] + Without(s[1..], c)
  }

  /** Python's `s.split(sep)` for a one-character separator: the pieces between
      separators, at least one, none holding the separator, and joining them
      back gives `s`. */
  function Split(s: string, sep: char): (parts: seq<string>)
    ensures |parts| >= 1
    ensures forall i :: 0 <= i < |parts| ==> sep !in parts[i]
    ensures Join(parts, sep) == s
  {
    if s == [] then [[]]
    else
      var rest := Split(s[1..], sep);
      if s[0] == sep then
        assert ([[]] + rest)[1..] == rest;
        [[]] + rest
      else
        var parts := [[s[0]] + rest[0]] + rest[1..];
        assert parts[1..] == rest[1..];
        parts
  }

  /** The other direction of the round trip: splitting a join gives the pieces back. */
  lemma {:induction false} SplitJoin(parts: seq<string>, sep: char)
    requires |parts| >= 1
    requires forall i :: 0 <= i < |parts| ==> sep !in parts[i]
    ensures Split(Join(parts, sep), sep) == parts
    decreases |parts|, |parts[0]|
  {
    var p := parts[0];
    if p == [] {
      if |parts| > 1 {
        SplitJoin(parts[1..], sep);
        SplitJoinEmptyFirst(parts, sep);
      }
    } else {
      var parts' := [p[1..]] + parts[1..];
      assert parts'[1..] == parts[1..];
      assert sep !in p[1..] by { assert forall x :: x in p[1..] ==> x in p; }
      assert forall i :: 0 <= i < |parts'| ==> sep !in parts'[i] by {
        assert forall i :: 1 <= i < |parts'| ==> parts'[i] == parts[i];
      }
      SplitJoin(parts', sep);
      SplitJoinFirstChar(parts, sep);
    }
  }

  /** The step of SplitJoin for a join whose first piece is empty. */
  lemma SplitJoinEmptyFirst(parts: seq<string>, sep: char)
    requires |parts| > 1 && parts[0] == []
    requires Split(Join(parts[1..], sep), sep) == parts[1..]
    ensures Split(Join(parts, sep), sep) == parts
  {
    var s := Join(parts, sep);
    assert s == [sep] + Join(parts[1..], sep);
    assert s[1..] == Join(parts[1..], sep);
  }

  /** The step of SplitJoin for a join whose first piece starts with a character. */
  lemma SplitJoinFirstChar(parts: seq<string>, sep: char)
    requires |parts| >= 1 && parts[0] != [] && parts[0][0] != sep
    requires Split(Join([parts[0][1..]] + parts[1..], sep), sep) == [parts[0][1..]] + parts[1..]
    ensures Split(Join(parts, sep), sep) == parts
  {
    var p := parts[0];
    var parts' := [p[1..]] + parts[1..];
    assert parts'[1..] == parts[1..];
    var s := Join(parts, sep);
    assert s == [p[0]] + Join(parts', sep);
    assert s[1..] == Join(parts', sep);
    assert [p[0]] + p[1..] == p;
  }

  /** Joining with the empty string the pieces of a split deletes every separator:
      `''.join(s.split(c))` removes the character `c`. */
  lemma {:induction false} ConcatSplit(s: string, c: char)
    ensures Concat(Split(s, c)) == Without(s, c)
  {
    if s != [] {
      ConcatSplit(s[1..], c);
      var rest := Split(s[1..], c);
      if s[0] == c {
        assert Concat([[]] + rest) == Concat(rest);
      } else {
        var parts := [[s[0]] + rest[0]] + rest[1..];
        assert Concat(rest) == rest[0] + Concat(rest[1..]);
        assert Concat(parts) == [s[0]] + rest[0] + Concat(rest[1..]);
      }
    }
  }

  /** The last piece of a join is a suffix, preceded by the separator when there is more than one piece. */
  lemma {:induction false} JoinLast(parts: seq<string>, sep: char)
    requires |parts| >= 1
    ensures var s, l := Join(parts, sep), parts[|parts| - 1];
            |l| <= |s| && s[|s| - |l|..] == l && (|parts| > 1 ==> |l| < |s| && s[|s| - |l| - 1] == sep)
    decreases |parts|
  {
    if |parts| > 1 {
      JoinLast(parts[1..], sep);
    }
  }

  /** The first piece of a join is a prefix, followed by the separator when there is more than one piece. */
  lemma JoinFirst(parts: seq<string>, sep: char)
    requires |parts| >= 1
    ensures var s, f := Join(parts, sep), parts[0];
            |f| <= |s| && s[..|f|] == f && (|parts| > 1 ==> |f| < |s| && s[|f|] == sep)
            && (|parts| == 1 ==> f == s)
  {
  }

  // ----- Image file names (main.py:219) -----

  /** `url.split('/')[-1].split('?')[0]`: the text after the last `/`, cut at the first `?`. */
  function ImageName(url: string): (name: string)
    ensures '/' !in name && '?' !in name
  {
    var segments := Split(url, '/');
    var last := segments[|segments| - 1];
    var name := Split(last, '?')[0];
    JoinFirst(Split(last, '?'), '?');
    assert forall x :: x in name ==> x in last;
    name
  }

  /** `r` is the part of `url` that starts at `i`, right after the last `/` (or at
      the start when there is none), and runs up to the first `?` or to the end. */
  ghost predicate NameAt(url: string, i: int, r: string)
  {
    0 <= i && i + |r| <= |url| && (i == 0 || url[i - 1] == '/') && '/' !in url[i..] &&
    url[i..i + |r|] == r && '?' !in r && (i + |r| == |url| || url[i + |r|] == '?')
  }

  /** The name holds neither `/` nor `?`, and it is the part of the URL that
      NameAt describes. */
  lemma ImageNameSpec(url: string)
    ensures exists i :: NameAt(url, i, ImageName(url))
  {
    var segments := Split(url, '/');
    var last := segments[|segments| - 1];
    JoinLast(segments, '/');
    var i := |url| - |last|;
    assert url[i..] == last;
    var pieces := Split(last, '?');
    JoinFirst(pieces, '?');
    var r := pieces[0];
    assert r == ImageName(url);
    assert url[i..i + |r|] == last[..|r|];
    assert i + |r| == |url| || url[i + |r|] == last[|r|];
    assert NameAt(url, i, r);
  }

  /** NameAt determines the name: there is one answer per URL. */
  lemma NameAtUnique(url: string, i: int, r: string, j: int, q: string)
    requires NameAt(url, i, r) && NameAt(url, j, q)
    ensures i == j && r == q
  {
  }

  /** A picture URL with a query string is saved under the name before the `?`. */
  lemma ImageNameExample()
    ensures ImageName("https://pic.example.com/v2/abc123.jpg?source=xyz") == "abc123.jpg"
  {
    var dir, name, query := "https://pic.example.com/v2/", "abc123.jpg", "?source=xyz";
    assert dir + name + query == "https://pic.example.com/v2/abc123.jpg?source=xyz";
    ImageNameOfParts(dir, name, query);
  }

  /** The name of a URL made of a directory part ending in `/`, a name, and a
      query string or nothing, is that name. */
  lemma ImageNameOfParts(dir: string, name: string, query: string)
    requires dir != [] && dir[|dir| - 1] == '/'
    requires '/' !in name && '/' !in query && '?' !in name
    requires query == [] || query[0] == '?'
    ensures ImageName(dir + name + query) == name
  {
    var url := dir + name + query;
    NameAtParts(dir, name, query);
    ImageNameSpec(url);
    var j :| NameAt(url, j, ImageName(url));
    NameAtUnique(url, |dir|, name, j, ImageName(url));
  }

  /** A URL made of a directory part ending in `/`, a name, and a query
      string or nothing: the name is the one NameAt describes. */
  lemma NameAtParts(dir: string, name: string, query: string)
    requires dir != [] && dir[|dir| - 1] == '/'
    requires '/' !in name && '/' !in query && '?' !in name
    requires query == [] || query[0] == '?'
    ensures NameAt(dir + name + query, |dir|, name)
  {
    var url := dir + name + query;
    assert url[|dir|..] == name + query;
    assert url[|dir|..|dir| + |name|] == name;
  }

  // ----- The field list read from include.txt (main.py:114-117) -----

  /** A match of the pattern ` *#.*` begins at the start of `s`: a run of spaces, then `#`. */
  predicate StartsComment(s: string)
  {
    |s| > 0 && (s[0] == '#' || (s[0] == ' ' && StartsComment(s[1..])))
  }

  /** What is left once `.*` (which, without DOTALL, stops before a newline) has
      consumed its greedy match: the text from the first newline on. */
  function FromNewline(s: string): (r: string)
    ensures |r| <= |s| && r == s[|s| - |r|..]
    ensures r == [] || r[0] == '\n'
    ensures '\n' !in s[..|s| - |r|]
  {
    if s == [] || s[0] == '\n' then s else FromNewline(s[1..])
  }

  /** `re.sub(r' *#.*', '', s)`: scanning left to right, every match of the
      pattern is deleted; elsewhere the text is kept. */
  function SubComments(s: string): (r: string)
    ensures '#' !in r && |r| <= |s|
    decreases |s|
  {
    if s == [] then []
    else if StartsComment(s) then SubComments(FromNewline(s))
    else [s[0]] + SubComments(s[1..])
  }

  /** The `include` query parameter built from the text of include.txt: comments
      deleted, then `''.join(text.split('\n'))`. */
  function IncludeParam(text: string): (r: string)
    ensures '#' !in r && '\n' !in r
  {
    ConcatSplit(SubComments(text), '\n');
    Concat(Split(SubComments(text), '\n'))
  }

  // A reference definition, line by line.

  predicate AllSpaces(s: string)
  {
    forall i :: 0 <= i < |s| ==> s[i] == ' '
  }

  /** `s` without its trailing spaces. */
  function TrimRight(s: string): (r: string)
    ensures r <= s && AllSpaces(s[|r|..])
    ensures r == [] || r[|r| - 1] != ' '
  {
    if s != [] && s[|s| - 1] == ' ' then TrimRight(s[..|s| - 1]) else s
  }

  /** The position of the first `c` in `s`. */
  function FirstIndex(s: string, c: char): (i: nat)
    requires c in s
    ensures i < |s| && s[i] == c && c !in s[..i]
  {
    if s[0] == c then 0 else 1 + FirstIndex(s[1..], c)
  }

  /** One line of include.txt once its comment is gone: everything from the first
      `#` on, together with the spaces right before it, is cut. */
  function StripLine(line: string): string
  {
    if '#' in line then TrimRight(line[..FirstIndex(line, '#')]) else line
  }

  /** Each line stripped. */
  function StripEach(lines: seq<string>): (stripped: seq<string>)
    ensures |stripped| == |lines|
  {
    if lines == [] then [] else [StripLine(lines[0])] + StripEach(lines[1..])
  }

  /** The stripped lines, concatenated. */
  function StripLines(lines: seq<string>): string
  {
    if lines == [] then [] else StripLine(lines[0]) + StripLines(lines[1..])
  }

  lemma {:induction false} StartsCommentHasHash(s: string)
    requires StartsComment(s)
    ensures '#' in s
    decreases |s|
  {
    if s[0] != '#' {
      StartsCommentHasHash(s[1..]);
    }
  }

  /** A comment start found in `line + rest`, where `rest` is empty or begins a new
      line, lies inside `line`; and one inside `line` is one in `line + rest`. */
  lemma {:induction false} StartsCommentInLine(line: string, rest: string)
    requires rest == [] || rest[0] == '\n'
    ensures StartsComment(line + rest) <==> StartsComment(line)
    decreases |line|
  {
    if line != [] {
      assert (line + rest)[1..] == line[1..] + rest;
      StartsCommentInLine(line[1..], rest);
    }
  }

  /** A line that starts a comment is spaces, then `#`: nothing of it survives. */
  lemma {:induction false} StripLineOfComment(line: string)
    requires StartsComment(line)
    ensures '#' in line && AllSpaces(line[..FirstIndex(line, '#')])
    decreases |line|
  {
    StartsCommentHasHash(line);
    if line[0] != '#' {
      StartsCommentHasHash(line[1..]);
      StripLineOfComment(line[1..]);
      assert FirstIndex(line, '#') == 1 + FirstIndex(line[1..], '#');
      assert line[1..][..FirstIndex(line[1..], '#')] == line[1..FirstIndex(line, '#')];
    }
  }

  lemma {:induction false} TrimAllSpaces(s: string)
    requires AllSpaces(s)
    ensures TrimRight(s) == []
    decreases |s|
  {
    if s != [] {
      TrimAllSpaces(s[..|s| - 1]);
    }
  }

  /** Trimming from the right does not reach a first character when a non-space follows it or it is one. */
  lemma {:induction false} TrimRightCons(c: char, t: string)
    requires !AllSpaces([c] + t)
    ensures TrimRight([c] + t) == [c] + TrimRight(t)
    decreases |t|
  {
    if t == [] {
    } else if t[|t| - 1] == ' ' {
      var t' := t[..|t| - 1];
      assert ([c] + t)[..|t|] == [c] + t';
      assert !AllSpaces([c] + t') by {
        var k :| 0 <= k < |[c] + t| && ([c] + t)[k] != ' ';
        assert k < |t|;
        assert ([c] + t')[k] == ([c] + t)[k];
      }
      TrimRightCons(c, t');
    }
  }

  /** A line that does not start a comment keeps its first character. */
  lemma StripLineCons(line: string)
    requires line != [] && !StartsComment(line)
    ensures StripLine(line) == [line[0]] + StripLine(line[1..])
  {
    if '#' in line {
      StripLineConsHash(line);
    } else {
      assert '#' !in line[1..] by { assert forall x :: x in line[1..] ==> x in line; }
    }
  }

  lemma StripLineConsHash(line: string)
    requires line != [] && !StartsComment(line) && '#' in line
    ensures StripLine(line) == [line[0]] + StripLine(line[1..])
  {
    assert line[0] != '#';
    var h := FirstIndex(line, '#');
    assert FirstIndex(line, '#') == 1 + FirstIndex(line[1..], '#');
    var head := line[..h];
    var tail := line[1..][..h - 1];
    assert tail == line[1..h];
    assert head == [line[0]] + tail;
    assert !AllSpaces(head) by {
      if AllSpaces(head) {
        SpacesThenHash(line, h);
      }
    }
    TrimRightCons(line[0], tail);
  }

  /** Spaces up to a `#` make a comment start. */
  lemma {:induction false} SpacesThenHash(s: string, h: nat)
    requires h < |s| && s[h] == '#' && AllSpaces(s[..h])
    ensures StartsComment(s)
    decreases h
  {
    if h > 0 {
      assert s[1..][..h - 1] == s[1..h];
      SpacesThenHash(s[1..], h - 1);
    }
  }

  /** Deleting the comments of text that is one line followed by more lines
      strips that line by itself. */
  lemma {:induction false} SubCommentsLine(line: string, rest: string)
    requires '\n' !in line
    requires rest == [] || rest[0] == '\n'
    ensures SubComments(line + rest) == StripLine(line) + SubComments(rest)
    decreases |line|
  {
    var s := line + rest;
    if line == [] {
      assert s == rest;
    } else {
      StartsCommentInLine(line, rest);
      if StartsComment(line) {
        StripLineOfCommentEmpty(line);
        FromNewlineSkipsLine(line, rest);
        assert SubComments(s) == SubComments(FromNewline(s));
      } else {
        assert SubComments(s) == [s[0]] + SubComments(s[1..]);
        assert s[1..] == line[1..] + rest;
        assert '\n' !in line[1..] by { assert forall x :: x in line[1..] ==> x in line; }
        SubCommentsLine(line[1..], rest);
        StripLineCons(line);
      }
    }
  }

  /** Nothing of a line that starts a comment survives. */
  lemma StripLineOfCommentEmpty(line: string)
    requires StartsComment(line)
    ensures StripLine(line) == []
  {
    StripLineOfComment(line);
    TrimAllSpaces(line[..FirstIndex(line, '#')]);
  }

  lemma {:induction false} FromNewlineSkipsLine(line: string, rest: string)
    requires '\n' !in line
    requires rest == [] || rest[0] == '\n'
    ensures FromNewline(line + rest) == rest
    decreases |line|
  {
    if line != [] {
      assert (line + rest)[1..] == line[1..] + rest;
      assert '\n' !in line[1..] by { assert forall x :: x in line[1..] ==> x in line; }
      FromNewlineSkipsLine(line[1..], rest);
    }
  }

  /** Deleting comments from joined lines strips each line and keeps the newlines. */
  lemma {:induction false} SubCommentsJoin(lines: seq<string>)
    requires |lines| >= 1
    requires forall i :: 0 <= i < |lines| ==> '\n' !in lines[i]
    ensures SubComments(Join(lines, '\n')) == Join(StripEach(lines), '\n')
    decreases |lines|
  {
    if |lines| == 1 {
      SubCommentsLine(lines[0], []);
      assert lines[0] + [] == lines[0];
    } else {
      var tail := Join(lines[1..], '\n');
      assert Join(lines, '\n') == lines[0] + (['\n'] + tail);
      SubCommentsLine(lines[0], ['\n'] + tail);
      SubCommentsNewline(tail);
      SubCommentsJoin(lines[1..]);
      assert StripEach(lines)[1..] == StripEach(lines[1..]);
    }
  }

  /** A newline never starts a comment and is kept. */
  lemma SubCommentsNewline(tail: string)
    ensures SubComments(['\n'] + tail) == ['\n'] + SubComments(tail)
  {
    assert !StartsComment(['\n'] + tail);
    assert (['\n'] + tail)[1..] == tail;
  }

  lemma {:induction false} StripEachNoNewline(lines: seq<string>)
    requires forall i :: 0 <= i < |lines| ==> '\n' !in lines[i]
    ensures forall i :: 0 <= i < |lines| ==> '\n' !in StripEach(lines)[i]
  {
    if lines != [] {
      StripLineNoNewline(lines[0]);
      StripEachNoNewline(lines[1..]);
      assert forall i :: 1 <= i < |lines| ==> StripEach(lines)[i] == StripEach(lines[1..])[i - 1];
    }
  }

  lemma {:induction false} StripLineNoNewline(line: string)
    requires '\n' !in line
    ensures '\n' !in StripLine(line)
  {
    if '#' in line {
      var t := line[..FirstIndex(line, '#')];
      assert forall x :: x in TrimRight(t) ==> x in t;
      assert forall x :: x in t ==> x in line;
    }
  }

  lemma {:induction false} ConcatStripEach(lines: seq<string>)
    ensures Concat(StripEach(lines)) == StripLines(lines)
  {
    if lines != [] {
      ConcatStripEach(lines[1..]);
      assert StripEach(lines)[1..] == StripEach(lines[1..]);
    }
  }

  /** The include parameter is the text's lines, each stripped of its comment and
      of the spaces right before it, concatenated. */
  lemma IncludeParamByLines(text: string)
    ensures IncludeParam(text) == StripLines(Split(text, '\n'))
  {
    var lines := Split(text, '\n');
    SubCommentsJoin(lines);
    StripEachNoNewline(lines);
    SplitJoin(StripEach(lines), '\n');
    ConcatStripEach(lines);
  }

  /** Text without `#` only loses its newlines. */
  lemma IncludeParamClean(text: string)
    ensures '#' !in text ==> IncludeParam(text) == Without(text, '\n')
  {
    ConcatSplit(SubComments(text), '\n');
    if '#' !in text {
      SubCommentsWithoutHash(text);
    }
  }

  lemma {:induction false} SubCommentsWithoutHash(s: string)
    requires '#' !in s
    ensures SubComments(s) == s
    decreases |s|
  {
    if s != [] {
      if StartsComment(s) {
        StartsCommentHasHash(s);
      }
      assert '#' !in s[1..] by { assert forall x :: x in s[1..] ==> x in s; }
      SubCommentsWithoutHash(s[1..]);
    }
  }
}
