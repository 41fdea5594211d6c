/** cIniFile: the document in memory, read from and written to the lines of a file. */
module IniFile {
  import opened IniText
  import opened IniRoundTrip

  // ---------------------------------------------------------------- files as text

  predicate OneLine(s: string) { '\n' !in s }

  function Joined(lines: seq<string>): string { if lines == [] then "" else lines[0] + "\n" + Joined(lines[1..]) }

  function LineEnd(s: string): (i: nat)
    ensures i <= |s| && (i < |s| ==> s[i] == '\n') && forall j :: 0 <= j < i ==> s[j] != '\n'
  {
    if s == "" || s[0] == '\n' then 0 else 1 + LineEnd(s[1..])
  }

  /** The lines that getline delivers. */
  function Split(s: string): seq<string>
    decreases |s|
  {
    if s == "" then [] else
      var i := LineEnd(s);
      if i == |s| then [s] else [s[..i]] + Split(s[i + 1..])
  }

  /** Every line ends with a newline, and no other character separates lines. */
  lemma LinesOfAFile(a: string, b: string)
    ensures Joined([a, b]) == a + "\n" + b + "\n"
    ensures (forall i :: 0 <= i < |a| ==> a[i] != '\n') && (forall i :: 0 <= i < |b| ==> b[i] != '\n') && b != "" ==>
              Split(a + "\n" + b) == [a, b] && Split(a + "\n" + b + "\n") == [a, b]
  {
    assert [a, b][1..] == [b] && [b][1..] == [];
    assert Joined([b]) == b + "\n" + "" == b + "\n";
    assert a + "\n" + (b + "\n") == a + "\n" + b + "\n";
    if (forall i :: 0 <= i < |a| ==> a[i] != '\n') && (forall i :: 0 <= i < |b| ==> b[i] != '\n') && b != "" {
      SplitFirst(a, b);
      SplitFirst(a, b + "\n");
      SplitFirst(b, "");
      assert b + "\n" + "" == b + "\n";
      assert LineEnd(b) == |b|;
      assert Split(b) == [b] && Split("") == [];
    }
  }

  lemma SplitFirst(first: string, rest: string)
    requires OneLine(first)
    ensures Split(first + "\n" + rest) == [first] + Split(rest)
  {
    var s := first + "\n" + rest;
    assert s[|first|] == '\n' && forall j :: 0 <= j < |first| ==> s[j] == first[j];
    assert LineEnd(s) == |first|;
    hide LineEnd;
    assert s[..|first|] == first && s[|first| + 1..] == rest;
  }

  lemma {:induction false} SplitJoined(lines: seq<string>)
    requires forall i :: 0 <= i < |lines| ==> OneLine(lines[i])
    ensures Split(Joined(lines)) == lines
  {
    if lines != [] {
      hide Split, OneLine;
      SplitFirst(lines[0], Joined(lines[1..]));
      SplitJoined(lines[1..]);
    }
  }

  predicate OneLineKey(k: Key) {
    && (forall i :: 0 <= i < |k.comments| ==> OneLine(k.comments[i]))
    && (forall i :: 0 <= i < |k.names| ==> OneLine(k.names[i]))
    && (forall i :: 0 <= i < |k.values| ==> OneLine(k.values[i]))
  }

  predicate OneLiners(d: Doc) {
    && (forall i :: 0 <= i < |d.comments| ==> OneLine(d.comments[i]))
    && (forall i :: 0 <= i < |d.names| ==> OneLine(d.names[i]))
    && (forall i :: 0 <= i < |d.keys| ==> OneLineKey(d.keys[i]))
  }

  predicate AllOneLine(lines: seq<string>) { forall i :: 0 <= i < |lines| ==> OneLine(lines[i]) }

  lemma SectionOneLine(name: string, k: Key, eol: string)
    requires |k.names| == |k.values| && OneLineKey(k) && OneLine(name) && OneLine(eol)
    ensures AllOneLine(SectionLines(name, k, eol))
  {
    assert AllOneLine(CommentLines(k.comments, eol)) && AllOneLine(ValueLines(k, eol));
    assert OneLine("[" + name + "]" + eol);
    hide CommentLines, ValueLines, OneLine;
  }

  lemma {:induction false} SectionsOneLine(d: Doc, i: nat, eol: string)
    requires Paired(d) && OneLiners(d) && i <= |d.keys| && OneLine(eol)
    ensures AllOneLine(SectionsFrom(d, i, eol))
    decreases |d.keys| - i
  {
    hide OneLine, SectionLines;
    if i < |d.keys| {
      assert OneLineKey(d.keys[i]);
      SectionOneLine(d.names[i], d.keys[i], eol);
      SectionsOneLine(d, i + 1, eol);
    }
  }

  lemma PrintedOneLine(d: Doc, eol: string)
    requires Paired(d) && OneLiners(d) && OneLine(eol)
    ensures AllOneLine(Print(d, eol))
  {
    SectionsOneLine(d, 0, eol);
    assert AllOneLine(CommentLines(d.comments, eol));
    hide OneLiners, SectionsFrom, CommentLines, OneLine;
  }

  lemma {:induction false} SplitIsOneLine(s: string)
    ensures AllOneLine(Split(s))
    decreases |s|
  {
    var i := LineEnd(s);
    if s != "" && i < |s| {
      SplitIsOneLine(s[i + 1..]);
      assert OneLine(s[..i]);
      hide OneLine, LineEnd;
    }
  }

  lemma ValueIsOneLine(d: Doc, section: string, name: string, value: string, fold: bool)
    requires Paired(d) && OneLiners(d) && OneLine(section) && OneLine(name) && OneLine(value)
    ensures OneLiners(WithValue(d, section, name, value, fold))
  {
    hide OneLine, FindName;
  }

  lemma CommentIsOneLine(d: Doc, section: string, comment: string, fold: bool)
    requires Paired(d) && OneLiners(d) && OneLine(comment)
    ensures OneLiners(WithComment(d, section, comment, fold))
  {
    hide OneLine, FindName;
  }

  lemma SliceIsOneLine(s: string, a: nat, b: nat)
    requires a <= b <= |s| && OneLine(s)
    ensures OneLine(s[a..b])
  {
  }

  lemma MarkIsOneLine(r: Reader, s: string, p: nat, fold: bool)
    requires Paired(r.doc) && OneLiners(r.doc) && OneLine(r.section) && p < |s| && OneLine(s)
    ensures OneLiners(WithValue(r.doc, r.section, s[..p], s[p + 1..], fold))
    ensures OneLiners(WithComment(r.doc, r.section, s[p + 1..], fold))
    ensures OneLiners(r.doc.(comments := r.doc.comments + [s[p + 1..]]))
    ensures OneLiners(Opened(r, s, p).doc) && OneLine(Opened(r, s, p).section)
  {
    SliceIsOneLine(s, 0, p);
    SliceIsOneLine(s, p + 1, |s|);
    if AfterBracket(s) > p + 1 {
      SliceIsOneLine(s, p + 1, AfterBracket(s) - 1);
    }
    hide OneLine, AfterBracket, WithValue, WithComment, Paired;
    ValueIsOneLine(r.doc, r.section, s[..p], s[p + 1..], fold);
    CommentIsOneLine(r.doc, r.section, s[p + 1..], fold);
  }

  /** A line without newlines puts none into the document. */
  lemma HandleIsOneLine(r: Reader, raw: string, fold: bool)
    requires Paired(r.doc) && OneLiners(r.doc) && OneLine(r.section) && OneLine(raw)
    ensures OneLiners(Handle(r, raw, fold).doc) && OneLine(Handle(r, raw, fold).section)
  {
    var s := Trimmed(raw);
    var p := FirstMark(s);
    assert OneLine(s);
    hide OneLine, FirstMark, AfterBracket, WithValue, WithComment, Trimmed, Paired;
    if p < |s| {
      hide OneLiners;
      HandleMark(r, raw, s, p, fold);
      MarkIsOneLine(r, s, p, fold);
      hide Handle, Opened;
    }
  }

  lemma {:induction false} ReadIsOneLine(r: Reader, lines: seq<string>, fold: bool)
    requires Paired(r.doc) && OneLiners(r.doc) && OneLine(r.section) && AllOneLine(lines)
    ensures OneLiners(ReadLines(r, lines, fold).doc)
    decreases |lines|
  {
    hide OneLine, OneLiners, Handle;
    if lines != [] && r.ok {
      HandleKeepsPairs(r, lines[0], fold);
      HandleIsOneLine(r, lines[0], fold);
      ReadIsOneLine(Handle(r, lines[0], fold), lines[1..], fold);
    }
  }

  lemma FileIsOneLine(text: string, fold: bool)
    ensures OneLiners(Read(Nothing(), Split(text), fold).doc)
  {
    var lines := Split(text);
    SplitIsOneLine(text);
    assert lines != [] ==> OneLine(WithoutBom(lines[0]));
    hide Split, OneLine, WithoutBom;
    ReadIsOneLine(Reader(Nothing(), "", true), if lines == [] then [] else [WithoutBom(lines[0])] + lines[1..], fold);
  }

  /**
   The file written, read line by line, gives the document back exactly under the condition of PrintThenRead, and if no
   text in it holds a newline.
   */
  lemma FileRoundTrip(d: Doc, eol: string, fold: bool)
    requires Paired(d) && (eol == "\r" || eol == "")
    ensures var r := Read(Nothing(), Split(Joined(Print(d, eol))), fold);
            (r.doc == d <==> OneLiners(d) && Writable(d, eol) && FirstsHoldAll(d, fold)) &&
            (OneLiners(d) && Writable(d, eol) ==> r.ok)
  {
    FileIsOneLine(Joined(Print(d, eol)), fold);
    if OneLiners(d) {
      PrintThenRead(d, eol, fold);
      assert OneLine(eol);
      PrintedOneLine(d, eol);
      hide Writable, OneLiners, Read, Print, Joined, Split, FirstsHoldAll, OneLine;
      SplitJoined(Print(d, eol));
    }
  }

  // ---------------------------------------------------------------- the class

  const NO_ID := -1

  class File {
    var caseInsensitive: bool
    var keys: seq<Key>
    var names: seq<string>
    var comments: seq<string>

    function Value(): Doc
      reads this
    {
      Doc(names, keys, comments)
    }

    ghost predicate Valid()
      reads this
    {
      Paired(Value())
    }

    constructor ()
      ensures Valid() && Value() == Nothing() && caseInsensitive
    {
      caseInsensitive, keys, names, comments := true, [], [], [];
    }

    method FindKey(name: string) returns (id: int)
      requires Valid()
      ensures var i := FindName(names, name, caseInsensitive); id == if i < |names| then i else NO_ID
    {
      hide Folded;
      for i := 0 to |names|
        invariant forall j :: 0 <= j < i ==> Folded(names[j], caseInsensitive) != Folded(name, caseInsensitive)
      {
        if Folded(names[i], caseInsensitive) == Folded(name, caseInsensitive) {
          return i;
        }
      }
      return NO_ID;
    }

    method AddKeyName(name: string) returns (id: int)
      requires Valid()
      modifies this`names, this`keys
      ensures Valid() && Value() == WithSection(old(Value()), name) && id == |names| - 1
    {
      names := names + [name];
      keys := keys + [Key([], [], [])];
      id := |names| - 1;
    }

    method AddValue(section: string, name: string, value: string)
      requires Valid()
      modifies this`names, this`keys
      ensures Valid() && Value() == WithValue(old(Value()), section, name, value, caseInsensitive)
    {
      var id := FindKey(section);
      if id == NO_ID {
        id := AddKeyName(section);
      }
      keys := keys[id := keys[id].(names := keys[id].names + [name], values := keys[id].values + [value])];
    }

    method AddHeaderComment(comment: string)
      requires Valid()
      modifies this`comments
      ensures Valid() && comments == old(comments) + [comment]
    {
      comments := comments + [comment];
    }

    method AddKeyComment(section: string, comment: string) returns (ok: bool)
      requires Valid()
      modifies this`keys
      ensures Valid() && Value() == WithComment(old(Value()), section, comment, caseInsensitive)
      ensures ok == (FindName(names, section, caseInsensitive) < |names|)
    {
      var id := FindKey(section);
      if id == NO_ID {
        return false;
      }
      keys := keys[id := keys[id].(comments := keys[id].comments + [comment])];
      return true;
    }

    /** One line of the reader's loop, after the byte order mark is dealt with. */
    method ReadLine(raw: string, section: string) returns (ok: bool, section': string)
      requires Valid()
      modifies this`names, this`keys, this`comments
      ensures Valid() && Reader(Value(), section', ok) == Handle(Reader(old(Value()), section, true), raw, caseInsensitive)
    {
      hide FirstMark, AfterBracket, WithSection, WithValue, WithComment, Trimmed;
      ok, section' := true, section;
      var s := Trimmed(raw);
      if s == "" {
        return;
      }
      if !IsPrint(s[0]) {
        return false, section;
      }
      var left := FirstMark(s);
      if left == |s| {
        return;
      }
      if s[left] == '[' {
        var right := AfterBracket(s);
        if right > left + 1 {
          section' := s[left + 1..right - 1];
          var _ := AddKeyName(section');
        }
      } else if s[left] == '=' {
        AddValue(section, s[..left], s[left + 1..]);
      } else if names == [] {
        AddHeaderComment(s[left + 1..]);
      } else {
        var _ := AddKeyComment(section, s[left + 1..]);
      }
    }

    /** Reads into whatever the object holds; an unprintable line start gives up, keeping what was read before it. */
    method ReadFile(lines: seq<string>) returns (ok: bool)
      requires Valid()
      modifies this`names, this`keys, this`comments
      ensures Valid()
      ensures var r := Read(old(Value()), lines, caseInsensitive);
              Value() == r.doc && ok == (r.ok && Value() != Nothing())
    {
      hide Handle, Paired;
      var section := "";
      ghost var all := if lines == [] then [] else [WithoutBom(lines[0])] + lines[1..];
      ghost var goal := ReadLines(Reader(Value(), "", true), all, caseInsensitive);
      assert all[0..] == all;
      for i := 0 to |lines|
        invariant Valid() && |all| == |lines|
        invariant ReadLines(Reader(Value(), section, true), all[i..], caseInsensitive) == goal
      {
        var line := lines[i];
        if i == 0 {
          line := WithoutBom(line);
        }
        assert line == all[i] && all[i..] == [line] + all[i + 1..];
        ReadStep(Reader(Value(), section, true), line, all[i + 1..], caseInsensitive);
        ok, section := ReadLine(line, section);
        if !ok {
          Stopped(Reader(Value(), section, false), all[i + 1..], caseInsensitive);
          return;
        }
      }
      assert all[|lines|..] == [];
      ReadNothing(Reader(Value(), section, true), caseInsensitive);
      ok := !(keys == [] && names == [] && comments == []);
    }

    method WriteFile(eol: string) returns (lines: seq<string>)
      requires Valid()
      ensures lines == Print(Value(), eol)
    {
      lines := [];
      for i := 0 to |comments|
        invariant lines == CommentLines(comments, eol)[..i]
      {
        lines := lines + [";" + comments[i] + eol];
      }
      if |comments| > 0 {
        lines := lines + [eol];
      }
      assert lines == HeaderLines(Value(), eol);
      hide CommentLines, HeaderLines;
      for i := 0 to |keys|
        invariant lines + SectionsFrom(Value(), i, eol) == Print(Value(), eol)
      {
        var section := WriteSection(i, eol);
        assert lines + (section + SectionsFrom(Value(), i + 1, eol)) == lines + section + SectionsFrom(Value(), i + 1, eol);
        lines := lines + section;
      }
      assert lines + [] == lines;
    }

    method WriteSection(i: nat, eol: string) returns (lines: seq<string>)
      requires Valid() && i < |keys|
      ensures lines == SectionLines(names[i], keys[i], eol)
    {
      var k := keys[i];
      lines := ["[" + names[i] + "]" + eol];
      ghost var first := lines;
      for c := 0 to |k.comments|
        invariant lines == first + CommentLines(k.comments, eol)[..c]
      {
        lines := lines + [";" + k.comments[c] + eol];
      }
      ghost var second := lines;
      assert second == first + CommentLines(k.comments, eol);
      for v := 0 to |k.names|
        invariant lines == second + ValueLines(k, eol)[..v]
      {
        lines := lines + [k.names[v] + "=" + k.values[v] + eol];
      }
      assert lines == second + ValueLines(k, eol);
      lines := lines + [eol];
    }
  }

  lemma Stopped(r: Reader, lines: seq<string>, fold: bool)
    requires Paired(r.doc) && !r.ok
    ensures ReadLines(r, lines, fold) == r
  {
  }
}
