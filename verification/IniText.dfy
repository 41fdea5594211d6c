/** INI documents: what each line means to the reader, what the writer prints, and that reading undoes printing. */
module IniText {
  datatype Key = Key(names: seq<string>, values: seq<string>, comments: seq<string>)

  /** Sections by position: names[i] is the name of keys[i]. */
  datatype Doc = Doc(names: seq<string>, keys: seq<Key>, comments: seq<string>)

  /** The document read so far, the section that lines belong to, and whether the file still looks like text. */
  datatype Reader = Reader(doc: Doc, section: string, ok: bool)

  predicate Paired(d: Doc) {
    |d.names| == |d.keys| && forall i :: 0 <= i < |d.keys| ==> |d.keys[i].names| == |d.keys[i].values|
  }

  // ---------------------------------------------------------------- looking up sections

  function Lower(c: char): char { if 'A' <= c <= 'Z' then (c as int + 32) as char else c }

  function Folded(s: string, fold: bool): string {
    if fold then seq(|s|, i requires 0 <= i < |s| => Lower(s[i])) else s
  }

  /** The same character, or the same letter from A to Z in the other case. */
  predicate UpToCase(a: char, b: char) {
    a == b || ('A' <= a <= 'Z' && b as int == a as int + 32) || ('A' <= b <= 'Z' && a as int == b as int + 32)
  }

  /** Names are the same, case ignored, exactly when they agree up to the case of letters; NAME is name. */
  lemma NamesFoldAlike(a: string, b: string)
    ensures Folded(a, true) == Folded(b, true) <==> |a| == |b| && forall i :: 0 <= i < |a| ==> UpToCase(a[i], b[i])
    ensures Folded(a, false) == Folded(b, false) <==> a == b
    ensures Folded("NAME", true) == Folded("name", true) && Folded("NAME", false) != Folded("name", false)
  {
    var s, t := Folded(a, true), Folded(b, true);
    if |a| == |b| {
      forall i | 0 <= i < |a| ensures s[i] == t[i] <==> UpToCase(a[i], b[i]) {
        SameLetter(a[i], b[i]);
      }
    }
    assert "NAME"[0] != "name"[0];
    assert Folded("NAME", true) == "name" == Folded("name", true);
  }

  lemma SameLetter(a: char, b: char)
    ensures Lower(a) == Lower(b) <==> UpToCase(a, b)
  {
  }

  /** The first section of a name, or the number of sections. */
  function FindName(names: seq<string>, name: string, fold: bool): (i: nat)
    ensures i <= |names| && (i < |names| ==> Folded(names[i], fold) == Folded(name, fold))
    ensures forall j :: 0 <= j < i ==> Folded(names[j], fold) != Folded(name, fold)
  {
    if names == [] || Folded(names[0], fold) == Folded(name, fold) then 0 else 1 + FindName(names[1..], name, fold)
  }

  function WithSection(d: Doc, name: string): (e: Doc)
    ensures Paired(d) ==> Paired(e)
  {
    d.(names := d.names + [name], keys := d.keys + [Key([], [], [])])
  }

  function WithValue(d: Doc, section: string, name: string, value: string, fold: bool): (e: Doc)
    requires |d.names| == |d.keys|
    ensures Paired(d) ==> Paired(e)
  {
    var e := if FindName(d.names, section, fold) == |d.names| then WithSection(d, section) else d;
    var i := FindName(d.names, section, fold);
    e.(keys := e.keys[i := e.keys[i].(names := e.keys[i].names + [name], values := e.keys[i].values + [value])])
  }

  function WithComment(d: Doc, section: string, comment: string, fold: bool): (e: Doc)
    requires |d.names| == |d.keys|
    ensures Paired(d) ==> Paired(e)
  {
    var i := FindName(d.names, section, fold);
    if i == |d.names| then d else d.(keys := d.keys[i := d.keys[i].(comments := d.keys[i].comments + [comment])])
  }

  // ---------------------------------------------------------------- reading

  predicate IsPrint(c: char) { ' ' <= c <= '~' }

  predicate IsMark(c: char) { c == ';' || c == '#' || c == '[' || c == '=' }

  function FirstMark(s: string): (i: nat)
    ensures i <= |s| && (i < |s| ==> IsMark(s[i])) && forall j :: 0 <= j < i ==> !IsMark(s[j])
  {
    if s == "" || IsMark(s[0]) then 0 else 1 + FirstMark(s[1..])
  }

  /** One past the last closing bracket, or 0. */
  function AfterBracket(s: string): (i: nat)
    ensures i <= |s| && (i > 0 ==> s[i - 1] == ']') && forall j :: i <= j < |s| ==> s[j] != ']'
  {
    if s == "" then 0 else if s[|s| - 1] == ']' then |s| else AfterBracket(s[..|s| - 1])
  }

  function Trimmed(s: string): string { if s != "" && s[|s| - 1] == '\r' then s[..|s| - 1] else s }

  function Handle(r: Reader, raw: string, fold: bool): Reader
    requires |r.doc.names| == |r.doc.keys|
  {
    var s := Trimmed(raw);
    if s == "" then r
    else if !IsPrint(s[0]) then r.(ok := false)
    else
      var p := FirstMark(s);
      if p == |s| then r
      else if s[p] == '[' then
        var q := AfterBracket(s);
        if q > p + 1 then Reader(WithSection(r.doc, s[p + 1..q - 1]), s[p + 1..q - 1], r.ok) else r
      else if s[p] == '=' then r.(doc := WithValue(r.doc, r.section, s[..p], s[p + 1..], fold))
      else if r.doc.names == [] then r.(doc := r.doc.(comments := r.doc.comments + [s[p + 1..]]))
      else r.(doc := WithComment(r.doc, r.section, s[p + 1..], fold))
  }

  lemma HandleKeepsPairs(r: Reader, raw: string, fold: bool)
    requires Paired(r.doc)
    ensures Paired(Handle(r, raw, fold).doc)
  {
    hide WithSection, WithValue, WithComment, FirstMark, AfterBracket, Trimmed, FindName;
  }

  /** The lines up to the first that does not look like text. */
  function ReadLines(r: Reader, lines: seq<string>, fold: bool): Reader
    requires Paired(r.doc)
    decreases |lines|
  {
    if lines == [] || !r.ok then r
    else
      HandleKeepsPairs(r, lines[0], fold);
      ReadLines(Handle(r, lines[0], fold), lines[1..], fold)
  }

  function Bom(): string { [0xEF as char, 0xBB as char, 0xBF as char] }

  function WithoutBom(s: string): string { if Bom() <= s then s[3..] else s }

  function Read(d: Doc, lines: seq<string>, fold: bool): Reader
    requires Paired(d)
  {
    ReadLines(Reader(d, "", true), if lines == [] then [] else [WithoutBom(lines[0])] + lines[1..], fold)
  }

  // ---------------------------------------------------------------- printing

  function CommentLines(comments: seq<string>, eol: string): seq<string> {
    seq(|comments|, i requires 0 <= i < |comments| => ";" + comments[i] + eol)
  }

  function ValueLines(k: Key, eol: string): seq<string>
    requires |k.names| == |k.values|
  {
    seq(|k.names|, i requires 0 <= i < |k.names| => k.names[i] + "=" + k.values[i] + eol)
  }

  function SectionLines(name: string, k: Key, eol: string): seq<string>
    requires |k.names| == |k.values|
  {
    ["[" + name + "]" + eol] + CommentLines(k.comments, eol) + ValueLines(k, eol) + [eol]
  }

  /** The sections from one on. */
  function SectionsFrom(d: Doc, i: nat, eol: string): seq<string>
    requires Paired(d) && i <= |d.keys|
    decreases |d.keys| - i
  {
    if i == |d.keys| then [] else SectionLines(d.names[i], d.keys[i], eol) + SectionsFrom(d, i + 1, eol)
  }

  function HeaderLines(d: Doc, eol: string): seq<string> {
    CommentLines(d.comments, eol) + if d.comments == [] then [] else [eol]
  }

  function Print(d: Doc, eol: string): seq<string>
    requires Paired(d)
  {
    HeaderLines(d, eol) + SectionsFrom(d, 0, eol)
  }

  // ---------------------------------------------------------------- each printed line is understood

  /** The end of a line does not run into the text. Where the writer adds '\r' itself, anything goes. */
  predicate Ends(s: string, eol: string) { eol == "\r" || (eol == "" && (s == "" || s[|s| - 1] != '\r')) }

  lemma TrimPrinted(s: string, eol: string)
    requires Ends(s, eol)
    ensures Trimmed(s + eol) == s
  {
    assert s + "" == s;
  }

  lemma ReadComment(r: Reader, comment: string, eol: string, fold: bool)
    requires Paired(r.doc) && Ends(";" + comment, eol)
    ensures Handle(r, ";" + comment + eol, fold).doc ==
              if r.doc.names == [] then r.doc.(comments := r.doc.comments + [comment])
              else WithComment(r.doc, r.section, comment, fold)
    ensures Handle(r, ";" + comment + eol, fold).section == r.section && Handle(r, ";" + comment + eol, fold).ok == r.ok
  {
    var s := ";" + comment;
    TrimPrinted(s, eol);
    hide Trimmed, WithComment;
    assert FirstMark(s) == 0;
    assert s[1..] == comment;
  }

  lemma ReadSectionName(r: Reader, name: string, eol: string, fold: bool)
    requires Paired(r.doc) && (eol == "\r" || eol == "")
    ensures Handle(r, "[" + name + "]" + eol, fold) == Reader(WithSection(r.doc, name), name, r.ok)
  {
    var s := "[" + name + "]";
    TrimPrinted(s, eol);
    hide Trimmed;
    assert FirstMark(s) == 0 && AfterBracket(s) == |s|;
    assert s[1..|s| - 1] == name;
  }

  /** A name that the reader takes for the name of a value. */
  predicate GoodName(name: string) {
    (forall i :: 0 <= i < |name| ==> !IsMark(name[i])) && (name != "" ==> IsPrint(name[0]))
  }

  lemma ReadValue(r: Reader, name: string, value: string, eol: string, fold: bool)
    requires Paired(r.doc) && GoodName(name) && Ends(name + "=" + value, eol)
    ensures Handle(r, name + "=" + value + eol, fold) == r.(doc := WithValue(r.doc, r.section, name, value, fold))
  {
    var s := name + "=" + value;
    TrimPrinted(s, eol);
    hide Trimmed, WithValue;
    assert s[|name|] == '=';
    assert forall i :: 0 <= i < |name| ==> s[i] == name[i];
    var p := FirstMark(s);
    assert p == |name|;
    assert s[..p] == name && s[p + 1..] == value;
    assert name != "" ==> s[0] == name[0];
  }

  lemma ReadBlank(r: Reader, eol: string, fold: bool)
    requires Paired(r.doc) && (eol == "\r" || eol == "")
    ensures Handle(r, eol, fold) == r
  {
  }

  /** A hash starts a comment as a semicolon does. */
  lemma ReadHash(r: Reader, comment: string, fold: bool)
    requires Paired(r.doc)
    ensures Handle(r, "#" + comment + "\r", fold) == Handle(r, ";" + comment + "\r", fold)
  {
    var s, t := ";" + comment, "#" + comment;
    TrimPrinted(s, "\r");
    TrimPrinted(t, "\r");
    hide Trimmed, WithComment;
    assert FirstMark(s) == 0 && FirstMark(t) == 0;
    assert s[1..] == comment == t[1..];
  }

  /** A line without a mark changes nothing; one that starts with a character that is not printable ends the reading. */
  lemma ReadOther(r: Reader, s: string, fold: bool)
    requires Paired(r.doc) && s != ""
    ensures !(32 <= s[0] as int <= 126) ==> Handle(r, s + "\r", fold) == r.(ok := false)
    ensures 32 <= s[0] as int <= 126 && (forall i :: 0 <= i < |s| ==> s[i] !in {';', '#', '[', '='}) ==>
              Handle(r, s + "\r", fold) == r
  {
    TrimPrinted(s, "\r");
    hide Trimmed;
  }

  /** A value read outside every section starts one for it; a comment to a section that is not there is dropped. */
  lemma WithoutSection(d: Doc, section: string, name: string, value: string, fold: bool)
    requires |d.names| == |d.keys| && FindName(d.names, section, fold) == |d.names|
    ensures WithValue(d, section, name, value, fold) == Doc(d.names + [section], d.keys + [Key([name], [value], [])], d.comments)
    ensures WithComment(d, section, value, fold) == d
  {
    hide FindName;
    var e := WithSection(d, section);
    assert e.keys[|d.keys|] == Key([], [], []);
    assert [] + [name] == [name] && [] + [value] == [value];
  }

  /** A byte order mark in front of the file is not part of it. */
  lemma MarkIsDropped(s: string)
    ensures WithoutBom([0xEF as char, 0xBB as char, 0xBF as char] + s) == s
  {
    var t := [0xEF as char, 0xBB as char, 0xBF as char] + s;
    assert t[..3] == Bom() && t[3..] == s;
  }

  /** What is printed of a document with one of everything. */
  lemma PrintedLines(top: string, name: string, comment: string, key: string, value: string, eol: string)
    ensures var d := Doc([name], [Key([key], [value], [comment])], [top]);
            Paired(d) && Print(d, eol) ==
              [";" + top + eol, eol, "[" + name + "]" + eol, ";" + comment + eol, key + "=" + value + eol, eol]
  {
    var k := Key([key], [value], [comment]);
    var d := Doc([name], [k], [top]);
    assert SectionsFrom(d, 1, eol) == [];
    assert CommentLines([top], eol) == [";" + top + eol] && CommentLines([comment], eol) == [";" + comment + eol];
    assert ValueLines(k, eol) == [key + "=" + value + eol];
    hide CommentLines, ValueLines;
    assert SectionLines(name, k, eol) == ["[" + name + "]" + eol, ";" + comment + eol, key + "=" + value + eol, eol];
  }

  // ---------------------------------------------------------------- runs of lines

  lemma ReadStep(r: Reader, line: string, rest: seq<string>, fold: bool)
    requires Paired(r.doc) && r.ok
    ensures Paired(Handle(r, line, fold).doc)
    ensures ReadLines(r, [line] + rest, fold) == ReadLines(Handle(r, line, fold), rest, fold)
  {
    HandleKeepsPairs(r, line, fold);
    hide Handle;
    assert ([line] + rest)[1..] == rest;
  }

  lemma ReadNothing(r: Reader, fold: bool)
    requires Paired(r.doc)
    ensures ReadLines(r, [], fold) == r
  {
  }

  /** Reading stops for good at a line that does not look like text. */
  lemma {:induction false} ReadAppend(r: Reader, a: seq<string>, b: seq<string>, fold: bool)
    requires Paired(r.doc)
    ensures Paired(ReadLines(r, a, fold).doc)
    ensures ReadLines(r, a + b, fold) == ReadLines(ReadLines(r, a, fold), b, fold)
    decreases |a|
  {
    hide Handle;
    if a == [] {
      assert a + b == b;
    } else if r.ok {
      HandleKeepsPairs(r, a[0], fold);
      ReadAppend(Handle(r, a[0], fold), a[1..], b, fold);
      assert (a + b)[1..] == a[1..] + b;
    }
  }

  // ---------------------------------------------------------------- what a printed document reads back as

  predicate WritableKey(k: Key, eol: string)
    requires |k.names| == |k.values|
  {
    && (forall i :: 0 <= i < |k.comments| ==> Ends(";" + k.comments[i], eol))
    && (forall i :: 0 <= i < |k.names| ==> GoodName(k.names[i]) && Ends(k.names[i] + "=" + k.values[i], eol))
  }

  /** What the writer can print without a text running into the syntax. */
  predicate Writable(d: Doc, eol: string) {
    && Paired(d) && (eol == "\r" || eol == "")
    && (forall i :: 0 <= i < |d.comments| ==> Ends(";" + d.comments[i], eol))
    && (forall i :: 0 <= i < |d.keys| ==> WritableKey(d.keys[i], eol))
  }

  const EMPTY := Key([], [], [])

  function Together(a: Key, b: Key): Key { Key(a.names + b.names, a.values + b.values, a.comments + b.comments) }

  /** More contents for section i. */
  function Gained(d: Doc, i: nat, k: Key): (e: Doc)
    requires i < |d.keys|
    ensures |e.keys| == |d.keys| && (Paired(d) && |k.names| == |k.values| ==> Paired(e))
  {
    d.(keys := d.keys[i := Together(d.keys[i], k)])
  }

  lemma GainedTwice(d: Doc, i: nat, a: Key, b: Key)
    requires i < |d.keys|
    ensures Gained(Gained(d, i, a), i, b) == Gained(d, i, Together(a, b))
  {
    var k := d.keys[i];
    assert Together(Together(k, a), b) == Together(k, Together(a, b));
  }

  lemma GainedNothing(d: Doc, i: nat)
    requires i < |d.keys|
    ensures Gained(d, i, EMPTY) == d
  {
    assert Together(d.keys[i], EMPTY) == d.keys[i];
  }

  /** A section read: it is started at the end, but its contents go to the first section of its name. */
  function AddSection(d: Doc, name: string, k: Key, fold: bool): (e: Doc)
    requires |d.names| == |d.keys|
    ensures |e.names| == |e.keys| == |d.keys| + 1 && e.names == d.names + [name]
    ensures Paired(d) && |k.names| == |k.values| ==> Paired(e)
  {
    var started := WithSection(d, name);
    assert Folded(started.names[|d.names|], fold) == Folded(name, fold);
    Gained(started, FindName(started.names, name, fold), k)
  }

  /** The sections of d from i on, added one after the other. */
  function AddFrom(e: Doc, d: Doc, i: nat, fold: bool): (r: Doc)
    requires Paired(e) && Paired(d) && i <= |d.keys|
    ensures Paired(r)
    decreases |d.keys| - i
  {
    if i == |d.keys| then e else AddFrom(AddSection(e, d.names[i], d.keys[i], fold), d, i + 1, fold)
  }

  function Header(d: Doc): Doc { Doc([], [], d.comments) }

  function ReadBack(d: Doc, fold: bool): Doc
    requires Paired(d)
  {
    AddFrom(Header(d), d, 0, fold)
  }

  lemma FirstComment(cs: seq<string>, eol: string)
    requires cs != []
    ensures CommentLines(cs, eol) == [";" + cs[0] + eol] + CommentLines(cs[1..], eol)
  {
  }

  lemma NoComments(eol: string)
    ensures CommentLines([], eol) == []
  {
  }

  lemma FirstValue(k: Key, n: nat, eol: string)
    requires |k.names| == |k.values| && n < |k.names|
    ensures ValueLines(k, eol)[n..] == [k.names[n] + "=" + k.values[n] + eol] + ValueLines(k, eol)[n + 1..]
  {
  }

  lemma CommentGained(d: Doc, section: string, comment: string, fold: bool)
    requires Paired(d) && FindName(d.names, section, fold) < |d.names|
    ensures WithComment(d, section, comment, fold) == Gained(d, FindName(d.names, section, fold), Key([], [], [comment]))
  {
    hide FindName;
    var k := d.keys[FindName(d.names, section, fold)];
    assert k.names + [] == k.names && k.values + [] == k.values;
  }

  lemma ValueGained(d: Doc, section: string, name: string, value: string, fold: bool)
    requires Paired(d) && FindName(d.names, section, fold) < |d.names|
    ensures WithValue(d, section, name, value, fold) == Gained(d, FindName(d.names, section, fold), Key([name], [value], []))
  {
    hide FindName;
    var k := d.keys[FindName(d.names, section, fold)];
    assert k.comments + [] == k.comments;
  }

  /** The comments of a section, read into the first section of its name. */
  lemma {:induction false} ReadComments(d: Doc, section: string, cs: seq<string>, eol: string, fold: bool)
    requires Paired(d) && FindName(d.names, section, fold) < |d.names|
    requires forall i :: 0 <= i < |cs| ==> Ends(";" + cs[i], eol)
    ensures var i := FindName(d.names, section, fold);
            ReadLines(Reader(d, section, true), CommentLines(cs, eol), fold) ==
            Reader(Gained(d, i, Key([], [], cs)), section, true)
    decreases |cs|
  {
    var i, r := FindName(d.names, section, fold), Reader(d, section, true);
    hide CommentLines, ReadLines, Handle, FindName, WithComment;
    if cs == [] {
      NoComments(eol);
      ReadNothing(r, fold);
      GainedNothing(d, i);
    } else {
      var one, rest := Key([], [], [cs[0]]), Key([], [], cs[1..]);
      ReadComment(r, cs[0], eol, fold);
      CommentGained(d, section, cs[0], fold);
      ReadComments(Gained(d, i, one), section, cs[1..], eol, fold);
      GainedTwice(d, i, one, rest);
      assert Together(one, rest) == Key([], [], cs);
      FirstComment(cs, eol);
      ReadStep(r, ";" + cs[0] + eol, CommentLines(cs[1..], eol), fold);
    }
  }

  function ValuesFrom(k: Key, n: nat): Key
    requires |k.names| == |k.values| && n <= |k.names|
  {
    Key(k.names[n..], k.values[n..], [])
  }

  /** Its values, from one on, likewise. */
  lemma {:induction false} ReadValues(d: Doc, section: string, k: Key, n: nat, eol: string, fold: bool)
    requires Paired(d) && FindName(d.names, section, fold) < |d.names|
    requires |k.names| == |k.values| && n <= |k.names| && WritableKey(k, eol)
    ensures var i := FindName(d.names, section, fold);
            ReadLines(Reader(d, section, true), ValueLines(k, eol)[n..], fold) ==
            Reader(Gained(d, i, ValuesFrom(k, n)), section, true)
    decreases |k.names| - n
  {
    var i, r := FindName(d.names, section, fold), Reader(d, section, true);
    hide ReadLines, Handle, FindName, WithValue;
    if n == |k.names| {
      assert ValueLines(k, eol)[n..] == [] && ValuesFrom(k, n) == EMPTY;
      ReadNothing(r, fold);
      GainedNothing(d, i);
    } else {
      var one, rest := Key([k.names[n]], [k.values[n]], []), ValuesFrom(k, n + 1);
      ReadValue(r, k.names[n], k.values[n], eol, fold);
      hide WritableKey, Ends, GoodName, ValueLines;
      ValueGained(d, section, k.names[n], k.values[n], fold);
      ReadValues(Gained(d, i, one), section, k, n + 1, eol, fold);
      GainedTwice(d, i, one, rest);
      assert Together(one, rest) == ValuesFrom(k, n);
      FirstValue(k, n, eol);
      ReadStep(r, k.names[n] + "=" + k.values[n] + eol, ValueLines(k, eol)[n + 1..], fold);
    }
  }

  lemma SectionLinesAre(name: string, k: Key, eol: string)
    requires |k.names| == |k.values|
    ensures SectionLines(name, k, eol) == ["[" + name + "]" + eol] + (CommentLines(k.comments, eol) + (ValueLines(k, eol) + [eol]))
  {
    hide CommentLines, ValueLines;
  }

  /** After the line with its name, a section's comments, values and blank line. */
  lemma ReadSectionBody(d: Doc, name: string, k: Key, eol: string, fold: bool)
    requires Paired(d) && |k.names| == |k.values| && WritableKey(k, eol) && (eol == "\r" || eol == "")
    requires FindName(d.names, name, fold) < |d.names|
    ensures ReadLines(Reader(d, name, true), CommentLines(k.comments, eol) + (ValueLines(k, eol) + [eol]), fold)
              == Reader(Gained(d, FindName(d.names, name, fold), k), name, true)
  {
    var i := FindName(d.names, name, fold);
    var c, v := CommentLines(k.comments, eol), ValueLines(k, eol);
    var d1, d2 := Gained(d, i, Key([], [], k.comments)), Gained(d, i, k);
    assert v[0..] == v && Together(Key([], [], k.comments), ValuesFrom(k, 0)) == k;
    hide Handle, ReadLines, CommentLines, ValueLines, FindName, ValuesFrom, Together;
    ReadComments(d, name, k.comments, eol, fold);
    ReadValues(d1, name, k, 0, eol, fold);
    GainedTwice(d, i, Key([], [], k.comments), ValuesFrom(k, 0));
    ReadBlank(Reader(d2, name, true), eol, fold);
    hide Gained, WritableKey;
    ReadAppend(Reader(d, name, true), c, v + [eol], fold);
    ReadAppend(Reader(d1, name, true), v, [eol], fold);
    ReadStep(Reader(d2, name, true), eol, [], fold);
    assert [eol] + [] == [eol];
    ReadNothing(Reader(d2, name, true), fold);
  }

  lemma ReadSection(d: Doc, section: string, name: string, k: Key, eol: string, fold: bool)
    requires Paired(d) && |k.names| == |k.values| && WritableKey(k, eol) && (eol == "\r" || eol == "")
    ensures ReadLines(Reader(d, section, true), SectionLines(name, k, eol), fold) == Reader(AddSection(d, name, k, fold), name, true)
  {
    var r, started := Reader(d, section, true), WithSection(d, name);
    var first, c, v := "[" + name + "]" + eol, CommentLines(k.comments, eol), ValueLines(k, eol);
    assert Folded(started.names[|d.names|], fold) == Folded(name, fold);
    ReadSectionName(r, name, eol, fold);
    ReadSectionBody(started, name, k, eol, fold);
    SectionLinesAre(name, k, eol);
    hide Handle, ReadLines, CommentLines, ValueLines, WithSection, SectionLines, FindName, WritableKey, Gained;
    ReadStep(r, first, c + (v + [eol]), fold);
  }

  lemma SectionsStep(e: Doc, d: Doc, i: nat, eol: string, fold: bool)
    requires Paired(e) && Paired(d) && i < |d.keys|
    ensures SectionsFrom(d, i, eol) == SectionLines(d.names[i], d.keys[i], eol) + SectionsFrom(d, i + 1, eol)
    ensures AddFrom(e, d, i, fold) == AddFrom(AddSection(e, d.names[i], d.keys[i], fold), d, i + 1, fold)
  {
    hide SectionLines, AddSection;
  }

  lemma SectionsEnd(e: Doc, d: Doc, eol: string, fold: bool)
    requires Paired(e) && Paired(d)
    ensures SectionsFrom(d, |d.keys|, eol) == [] && AddFrom(e, d, |d.keys|, fold) == e
  {
  }

  lemma WritablePaired(d: Doc, eol: string)
    requires Writable(d, eol)
    ensures Paired(d) && |d.names| == |d.keys|
  {
  }

  lemma WritableSection(d: Doc, i: nat, eol: string)
    requires Writable(d, eol) && i < |d.keys|
    ensures Paired(d) && |d.names| == |d.keys| && |d.keys[i].names| == |d.keys[i].values| && WritableKey(d.keys[i], eol)
    ensures eol == "\r" || eol == ""
  {
  }

  /** A section's lines, and whatever lines follow. */
  lemma ReadSectionAndMore(e: Doc, section: string, name: string, k: Key, rest: seq<string>, eol: string, fold: bool)
    requires Paired(e) && |k.names| == |k.values| && WritableKey(k, eol) && (eol == "\r" || eol == "")
    ensures ReadLines(Reader(e, section, true), SectionLines(name, k, eol) + rest, fold)
              == ReadLines(Reader(AddSection(e, name, k, fold), name, true), rest, fold)
  {
    hide *;
    ReadSection(e, section, name, k, eol, fold);
    ReadAppend(Reader(e, section, true), SectionLines(name, k, eol), rest, fold);
  }

  lemma {:induction false} ReadSections(e: Doc, section: string, d: Doc, i: nat, eol: string, fold: bool)
    requires Paired(e) && Writable(d, eol) && i <= |d.keys|
    ensures ReadLines(Reader(e, section, true), SectionsFrom(d, i, eol), fold).ok
    ensures ReadLines(Reader(e, section, true), SectionsFrom(d, i, eol), fold).doc == AddFrom(e, d, i, fold)
    decreases |d.keys| - i
  {
    hide *;
    WritablePaired(d, eol);
    if i == |d.keys| {
      SectionsEnd(e, d, eol, fold);
      ReadNothing(Reader(e, section, true), fold);
    } else {
      WritableSection(d, i, eol);
      var name, k := d.names[i], d.keys[i];
      SectionsStep(e, d, i, eol, fold);
      ReadSectionAndMore(e, section, name, k, SectionsFrom(d, i + 1, eol), eol, fold);
      ReadSections(AddSection(e, name, k, fold), name, d, i + 1, eol, fold);
    }
  }

  function Nothing(): Doc { Doc([], [], []) }

  /** Comments before the first section are the header. */
  lemma {:induction false} ReadHeader(before: seq<string>, cs: seq<string>, eol: string, fold: bool)
    requires forall i :: 0 <= i < |cs| ==> Ends(";" + cs[i], eol)
    ensures ReadLines(Reader(Doc([], [], before), "", true), CommentLines(cs, eol), fold)
              == Reader(Doc([], [], before + cs), "", true)
    decreases |cs|
  {
    var r := Reader(Doc([], [], before), "", true);
    hide CommentLines, ReadLines, Handle, WithComment, Ends;
    if cs == [] {
      NoComments(eol);
      ReadNothing(r, fold);
      assert before + cs == before;
    } else {
      ReadComment(r, cs[0], eol, fold);
      ReadHeader(before + [cs[0]], cs[1..], eol, fold);
      assert before + [cs[0]] + cs[1..] == before + cs;
      FirstComment(cs, eol);
      ReadStep(r, ";" + cs[0] + eol, CommentLines(cs[1..], eol), fold);
    }
  }

  lemma PrintIs(d: Doc, eol: string)
    requires Paired(d)
    ensures Print(d, eol) == if d.comments == [] then SectionsFrom(d, 0, eol)
                             else CommentLines(d.comments, eol) + ([eol] + SectionsFrom(d, 0, eol))
  {
    hide SectionsFrom;
    if d.comments == [] {
      assert [] + [] + SectionsFrom(d, 0, eol) == SectionsFrom(d, 0, eol);
    } else {
      hide CommentLines;
    }
  }

  lemma ReadPrinted(d: Doc, eol: string, fold: bool)
    requires Writable(d, eol)
    ensures ReadLines(Reader(Nothing(), "", true), Print(d, eol), fold).ok
    ensures ReadLines(Reader(Nothing(), "", true), Print(d, eol), fold).doc == ReadBack(d, fold)
  {
    var start, r := Reader(Nothing(), "", true), Reader(Header(d), "", true);
    var c, rest := CommentLines(d.comments, eol), SectionsFrom(d, 0, eol);
    ReadHeader([], d.comments, eol, fold);
    assert [] + d.comments == d.comments;
    hide Handle, ReadLines, CommentLines, SectionsFrom, AddFrom, Print, WritableKey;
    PrintIs(d, eol);
    ReadSections(Header(d), "", d, 0, eol, fold);
    if d.comments != [] {
      ReadBlank(r, eol, fold);
      hide Writable;
      ReadAppend(start, c, [eol] + rest, fold);
      ReadStep(r, eol, rest, fold);
    }
  }

  /** The first line printed starts a comment or a section, never a byte order mark. */
  lemma NoBomPrinted(d: Doc, eol: string)
    requires Paired(d)
    ensures Print(d, eol) != [] ==> WithoutBom(Print(d, eol)[0]) == Print(d, eol)[0]
  {
    var lines := Print(d, eol);
    if d.comments != [] {
      assert lines[0] == ";" + d.comments[0] + eol;
    } else if d.keys != [] {
      assert lines[0] == "[" + d.names[0] + "]" + eol;
    }
    assert lines != [] ==> lines[0][0] in {';', '['};
    assert Bom()[0] == 0xEF as char;
  }

  lemma PrintedReadsBack(d: Doc, eol: string, fold: bool)
    requires Writable(d, eol)
    ensures Read(Nothing(), Print(d, eol), fold).ok && Read(Nothing(), Print(d, eol), fold).doc == ReadBack(d, fold)
  {
    NoBomPrinted(d, eol);
    ReadPrinted(d, eol, fold);
    hide Writable, ReadLines, Print, WithoutBom, ReadBack;
    var lines := Print(d, eol);
    if lines != [] {
      assert [lines[0]] + lines[1..] == lines;
    }
  }

  // ---------------------------------------------------------------- when that is the document itself

  predicate IsFirst(names: seq<string>, i: nat, fold: bool)
    requires i < |names|
  {
    FindName(names, names[i], fold) == i
  }

  /** Every section with contents is the first of its name. */
  predicate FirstsHoldAll(d: Doc, fold: bool)
    requires |d.names| == |d.keys|
  {
    forall i :: 0 <= i < |d.keys| ==> d.keys[i] == EMPTY || IsFirst(d.names, i, fold)
  }

  function Prefix(d: Doc, i: nat): (e: Doc)
    requires Paired(d) && i <= |d.keys|
    ensures Paired(e)
  {
    Doc(d.names[..i], d.keys[..i], d.comments)
  }

  /** The first of its name is also found among the sections up to it. */
  lemma FoundInFront(names: seq<string>, name: string, m: nat, fold: bool)
    requires m <= |names|
    ensures var i := FindName(names, name, fold);
            FindName(names[..m], name, fold) == if i < m then i else m
  {
    hide Folded;
    var i, k := FindName(names, name, fold), FindName(names[..m], name, fold);
    assert k < m ==> names[..m][k] == names[k];
    assert i < m ==> names[..m][i] == names[i];
  }

  lemma AddedInPlace(d: Doc, i: nat, fold: bool)
    requires Paired(d) && i < |d.keys| && (d.keys[i] == EMPTY || IsFirst(d.names, i, fold))
    ensures AddSection(Prefix(d, i), d.names[i], d.keys[i], fold) == Prefix(d, i + 1)
  {
    var e := Prefix(d, i);
    var started := WithSection(e, d.names[i]);
    assert started.names == d.names[..i + 1];
    FoundInFront(d.names, d.names[i], i + 1, fold);
    assert Folded(started.names[i], fold) == Folded(d.names[i], fold);
    hide FindName, Folded;
    if d.keys[i] == EMPTY {
      GainedNothing(started, FindName(started.names, d.names[i], fold));
    } else {
      assert Together(EMPTY, d.keys[i]) == d.keys[i];
    }
    assert d.keys[..i + 1] == d.keys[..i] + [d.keys[i]];
  }

  lemma {:induction false} AddedAllInPlace(d: Doc, i: nat, fold: bool)
    requires Paired(d) && FirstsHoldAll(d, fold) && i <= |d.keys|
    ensures AddFrom(Prefix(d, i), d, i, fold) == d
    decreases |d.keys| - i
  {
    if i < |d.keys| {
      AddedInPlace(d, i, fold);
      AddedAllInPlace(d, i + 1, fold);
      hide AddSection, FirstsHoldAll, Prefix;
    }
  }

  /** A section that is not the first of its name is never given contents. */
  lemma {:induction false} LaterStaysEmpty(e: Doc, d: Doc, m: nat, i: nat, fold: bool)
    requires Paired(e) && Paired(d) && m <= |d.keys| && i < |d.keys| && !IsFirst(d.names, i, fold)
    requires e.names == d.names[..m] && (i < m ==> e.keys[i] == EMPTY)
    ensures var r := AddFrom(e, d, m, fold); |r.keys| == |d.keys| && r.keys[i] == EMPTY
    decreases |d.keys| - m
  {
    if m < |d.keys| {
      var next := AddSection(e, d.names[m], d.keys[m], fold);
      assert next.names == d.names[..m + 1];
      if i <= m {
        NotTheTarget(d.names, i, m, fold);
      }
      assert i < m + 1 ==> next.keys[i] == EMPTY;
      hide AddSection;
      LaterStaysEmpty(next, d, m + 1, i, fold);
    }
  }

  /** Contents of section m go to the first of its name, which is not i. */
  lemma NotTheTarget(names: seq<string>, i: nat, m: nat, fold: bool)
    requires i <= m < |names| && !IsFirst(names, i, fold)
    ensures FindName(names[..m + 1], names[m], fold) != i
  {
    hide Folded;
    var j, t := FindName(names, names[i], fold), FindName(names[..m + 1], names[m], fold);
    assert j < i && names[..m + 1][i] == names[i] && names[..m + 1][j] == names[j];
  }

  /** What can be written is restored exactly when contents are in first sections: those of later ones move there. */
  lemma WritableThenRead(d: Doc, eol: string, fold: bool)
    requires Writable(d, eol)
    ensures Read(Nothing(), Print(d, eol), fold).ok
    ensures Read(Nothing(), Print(d, eol), fold).doc == d <==> FirstsHoldAll(d, fold)
  {
    PrintedReadsBack(d, eol, fold);
    hide Read, Print, Writable, IsFirst;
    if FirstsHoldAll(d, fold) {
      assert Prefix(d, 0) == Header(d);
      AddedAllInPlace(d, 0, fold);
    } else {
      var i :| 0 <= i < |d.keys| && d.keys[i] != EMPTY && !IsFirst(d.names, i, fold);
      LaterStaysEmpty(Header(d), d, 0, i, fold);
    }
  }

  lemma AddFirst(e: Doc, name: string, k: Key, fold: bool)
    requires e.names == [] && e.keys == []
    ensures AddSection(e, name, k, fold) == Doc([name], [k], e.comments)
  {
    hide Folded;
    assert Together(EMPTY, k) == k;
    assert WithSection(e, name) == Doc([name], [EMPTY], e.comments);
    assert FindName([name], name, fold) == 0;
  }

  lemma AddSecond(name: string, name': string, k: Key, l: Key, comments: seq<string>, fold: bool)
    requires Folded(name, fold) == Folded(name', fold)
    ensures AddSection(Doc([name], [k], comments), name', l, fold) == Doc([name, name'], [Together(k, l), EMPTY], comments)
  {
    hide Folded, Together;
    assert WithSection(Doc([name], [k], comments), name') == Doc([name, name'], [k, EMPTY], comments);
    assert FindName([name, name'], name', fold) == 0;
  }

  /** Two sections of one name come back as the first with the contents of both, and the second empty. */
  lemma SectionsAreMerged(name: string, name': string, k: Key, l: Key, comments: seq<string>, eol: string, fold: bool)
    requires var d := Doc([name, name'], [k, l], comments); Writable(d, eol)
    requires Folded(name, fold) == Folded(name', fold)
    ensures Read(Nothing(), Print(Doc([name, name'], [k, l], comments), eol), fold).doc ==
            Doc([name, name'], [Together(k, l), EMPTY], comments)
  {
    var d := Doc([name, name'], [k, l], comments);
    PrintedReadsBack(d, eol, fold);
    AddFirst(Header(d), name, k, fold);
    AddSecond(name, name', k, l, comments, fold);
    hide Read, Print, Writable, AddSection;
    var e := AddSection(Header(d), name, k, fold);
    assert AddFrom(e, d, 1, fold) == AddFrom(AddSection(e, name', l, fold), d, 2, fold);
  }

  lemma SameFirstMark(name: string, s: string)
    requires FirstMark(name) < |name| <= |s| && s[..|name|] == name
    ensures FirstMark(s) == FirstMark(name)
  {
    var p, q := FirstMark(name), FirstMark(s);
    hide FirstMark;
    assert forall i :: 0 <= i < |name| ==> s[i] == s[..|name|][i];
  }

  /** A bracket at p starts a section named by what lies before the last closing bracket, if there is one behind it. */
  function Opened(r: Reader, s: string, p: nat): Reader {
    var q := AfterBracket(s);
    if q > p + 1 then Reader(WithSection(r.doc, s[p + 1..q - 1]), s[p + 1..q - 1], r.ok) else r
  }

  /** What a line with a mark at p does, by the mark. */
  lemma HandleMark(r: Reader, raw: string, s: string, p: nat, fold: bool)
    requires Paired(r.doc) && Trimmed(raw) == s && p == FirstMark(s) < |s|
    ensures var h := Handle(r, raw, fold);
            if !IsPrint(s[0]) then h == r.(ok := false)
            else if s[p] == '=' then h == r.(doc := WithValue(r.doc, r.section, s[..p], s[p + 1..], fold))
            else if s[p] == '[' then h == Opened(r, s, p)
            else if r.doc.names == [] then h == r.(doc := r.doc.(comments := r.doc.comments + [s[p + 1..]]))
            else h == r.(doc := WithComment(r.doc, r.section, s[p + 1..], fold))
  {
    hide Trimmed, WithValue, WithComment, FirstMark, AfterBracket, WithSection, IsPrint, Paired;
  }

  /**
   A value whose name holds a mark, at p: its line is split there instead, or taken for a comment or a section, or the
   file is refused.
   */
  lemma ReadMarkedValue(r: Reader, name: string, value: string, eol: string, fold: bool)
    requires Paired(r.doc) && FirstMark(name) < |name| && Ends(name + "=" + value, eol)
    ensures var s, p, h := name + "=" + value, FirstMark(name), Handle(r, name + "=" + value + eol, fold);
            if !IsPrint(s[0]) then h == r.(ok := false)
            else if s[p] == '=' then h == r.(doc := WithValue(r.doc, r.section, s[..p], s[p + 1..], fold))
            else if s[p] == '[' then h == Opened(r, s, p)
            else if r.doc.names == [] then h == r.(doc := r.doc.(comments := r.doc.comments + [s[p + 1..]]))
            else h == r.(doc := WithComment(r.doc, r.section, s[p + 1..], fold))
  {
    hide *;
    var s := name + "=" + value;
    assert s[..|name|] == name;
    SameFirstMark(name, s);
    TrimPrinted(s, eol);
    HandleMark(r, s + eol, s, FirstMark(name), fold);
  }

  // ---------------------------------------------------------------- what has been read can be written

  /** Every value has a name that the reader would take for one. */
  predicate GoodNames(d: Doc) {
    Paired(d) && forall i, j :: 0 <= i < |d.keys| && 0 <= j < |d.keys[i].names| ==> GoodName(d.keys[i].names[j])
  }

  lemma ValueKeepsNames(d: Doc, section: string, name: string, value: string, fold: bool)
    requires GoodNames(d) && GoodName(name)
    ensures GoodNames(WithValue(d, section, name, value, fold))
  {
    hide GoodName, FindName;
  }

  lemma HandleKeepsNames(r: Reader, raw: string, fold: bool)
    requires GoodNames(r.doc)
    ensures GoodNames(Handle(r, raw, fold).doc)
  {
    HandleKeepsPairs(r, raw, fold);
    var s := Trimmed(raw);
    if s != "" && IsPrint(s[0]) {
      var p := FirstMark(s);
      if p < |s| && s[p] == '=' {
        ValueKeepsNames(r.doc, r.section, s[..p], s[p + 1..], fold);
      }
    }
    hide GoodName, WithValue, FindName, FirstMark, AfterBracket, Trimmed;
  }

  lemma {:induction false} ReadKeepsNames(r: Reader, lines: seq<string>, fold: bool)
    requires GoodNames(r.doc)
    ensures GoodNames(ReadLines(r, lines, fold).doc)
    decreases |lines|
  {
    if lines != [] && r.ok {
      HandleKeepsNames(r, lines[0], fold);
      hide Handle, GoodNames;
      ReadKeepsNames(Handle(r, lines[0], fold), lines[1..], fold);
    }
  }

  lemma OpenedKeepsFirsts(d: Doc, name: string, fold: bool)
    requires Paired(d) && FirstsHoldAll(d, fold)
    ensures FirstsHoldAll(WithSection(d, name), fold)
  {
    var e := WithSection(d, name);
    forall i | 0 <= i < |e.keys| ensures e.keys[i] == EMPTY || IsFirst(e.names, i, fold) {
      if i < |d.keys| {
        FoundInFront(e.names, d.names[i], |d.names|, fold);
        assert e.names[..|d.names|] == d.names && e.names[i] == d.names[i];
        hide FindName;
      }
    }
  }

  /** Contents given to the first section of a name. */
  lemma GainKeepsFirsts(d: Doc, name: string, k: Key, fold: bool)
    requires Paired(d) && FirstsHoldAll(d, fold) && FindName(d.names, name, fold) < |d.names|
    ensures FirstsHoldAll(Gained(d, FindName(d.names, name, fold), k), fold)
  {
    hide Folded, Together;
    var i := FindName(d.names, name, fold);
    var j := FindName(d.names, d.names[i], fold);
    assert IsFirst(d.names, i, fold);
  }

  lemma HandleKeepsFirsts(r: Reader, raw: string, fold: bool)
    requires Paired(r.doc) && FirstsHoldAll(r.doc, fold)
    ensures FirstsHoldAll(Handle(r, raw, fold).doc, fold)
  {
    HandleKeepsPairs(r, raw, fold);
    var s, d := Trimmed(raw), r.doc;
    if s != "" && IsPrint(s[0]) && FirstMark(s) < |s| {
      var p := FirstMark(s);
      if s[p] == '[' {
        OpenedKeepsFirsts(d, s[p + 1..if AfterBracket(s) > p + 1 then AfterBracket(s) - 1 else p + 1], fold);
      } else if s[p] == '=' {
        ValueKeepsFirsts(d, r.section, s[..p], s[p + 1..], fold);
      } else if FindName(d.names, r.section, fold) < |d.names| {
        CommentGained(d, r.section, s[p + 1..], fold);
        GainKeepsFirsts(d, r.section, Key([], [], [s[p + 1..]]), fold);
      }
      hide FirstsHoldAll, WithSection, WithValue, Gained, FindName, FirstMark, AfterBracket, Trimmed;
    }
  }

  lemma ValueKeepsFirsts(d: Doc, section: string, name: string, value: string, fold: bool)
    requires Paired(d) && FirstsHoldAll(d, fold)
    ensures FirstsHoldAll(WithValue(d, section, name, value, fold), fold)
  {
    var i := FindName(d.names, section, fold);
    if i < |d.names| {
      ValueGained(d, section, name, value, fold);
      GainKeepsFirsts(d, section, Key([name], [value], []), fold);
    } else {
      var e := WithSection(d, section);
      OpenedKeepsFirsts(d, section, fold);
      FoundInFront(e.names, section, |d.names|, fold);
      assert e.names[..|d.names|] == d.names;
      assert Folded(e.names[i], fold) == Folded(section, fold);
      hide Folded, FirstsHoldAll;
      assert FindName(e.names, section, fold) == i;
      ValueGained(e, section, name, value, fold);
      assert WithValue(d, section, name, value, fold) == WithValue(e, section, name, value, fold);
      GainKeepsFirsts(e, section, Key([name], [value], []), fold);
    }
  }

  lemma {:induction false} ReadKeepsFirsts(r: Reader, lines: seq<string>, fold: bool)
    requires Paired(r.doc) && FirstsHoldAll(r.doc, fold)
    ensures Paired(ReadLines(r, lines, fold).doc) && FirstsHoldAll(ReadLines(r, lines, fold).doc, fold)
    decreases |lines|
  {
    if lines != [] && r.ok {
      HandleKeepsPairs(r, lines[0], fold);
      HandleKeepsFirsts(r, lines[0], fold);
      hide Handle, FirstsHoldAll;
      ReadKeepsFirsts(Handle(r, lines[0], fold), lines[1..], fold);
    }
  }
}
