/**
 When an INI document that is printed and read again is the same document. A document weighs what its comments, names
 and values are long, names twice; no line adds more weight to the document read than the writer put into the line,
 and a line whose text runs into the syntax adds less. So nothing but writable documents can come back.
 */
module IniRoundTrip {
  import opened IniText

  // ---------------------------------------------------------------- the weight of a document

  function TextWeight(texts: seq<string>): nat { if texts == [] then 0 else |texts[0]| + TextWeight(texts[1..]) }

  lemma {:induction false} TextAppend(a: seq<string>, s: string)
    ensures TextWeight(a + [s]) == TextWeight(a) + |s|
  {
    if a == [] {
      assert [s][1..] == [] && a + [s] == [s];
    } else {
      assert (a + [s])[1..] == a[1..] + [s];
      TextAppend(a[1..], s);
    }
  }

  function KeyWeight(k: Key): nat { TextWeight(k.comments) + 2 * TextWeight(k.names) + TextWeight(k.values) + |k.names| }

  function KeysWeight(keys: seq<Key>): nat { if keys == [] then 0 else KeyWeight(keys[0]) + KeysWeight(keys[1..]) }

  lemma {:induction false} KeysAppend(a: seq<Key>, k: Key)
    ensures KeysWeight(a + [k]) == KeysWeight(a) + KeyWeight(k)
  {
    hide KeyWeight;
    if a == [] {
      assert [k][1..] == [] && a + [k] == [k];
    } else {
      assert (a + [k])[1..] == a[1..] + [k];
      KeysAppend(a[1..], k);
    }
  }

  lemma {:induction false} KeysUpdate(keys: seq<Key>, i: nat, k: Key)
    requires i < |keys|
    ensures KeysWeight(keys[i := k]) + KeyWeight(keys[i]) == KeysWeight(keys) + KeyWeight(k)
  {
    hide KeyWeight;
    if i == 0 {
      assert keys[0 := k][1..] == keys[1..];
    } else {
      assert keys[i := k][1..] == keys[1..][i - 1 := k];
      KeysUpdate(keys[1..], i - 1, k);
    }
  }

  function Weight(d: Doc): nat { TextWeight(d.comments) + KeysWeight(d.keys) }

  // ---------------------------------------------------------------- what a line adds

  /** What a line can add: a value its name twice and its text, a comment its text. */
  function Gain(raw: string): nat {
    var s := Trimmed(raw);
    var p := FirstMark(s);
    if p == |s| || !IsPrint(s[0]) || s[p] == '[' then 0
    else if s[p] == '=' then p + |s|
    else |s| - p - 1
  }

  lemma SectionGain(d: Doc, name: string)
    ensures Weight(WithSection(d, name)) == Weight(d)
  {
    KeysAppend(d.keys, EMPTY);
  }

  lemma ValueGain(d: Doc, section: string, name: string, value: string, fold: bool)
    requires |d.names| == |d.keys|
    ensures Weight(WithValue(d, section, name, value, fold)) == Weight(d) + 2 * |name| + |value| + 1
  {
    var i := FindName(d.names, section, fold);
    var e := if i == |d.names| then WithSection(d, section) else d;
    SectionGain(d, section);
    var k := e.keys[i];
    var l := k.(names := k.names + [name], values := k.values + [value]);
    TextAppend(k.names, name);
    TextAppend(k.values, value);
    hide FindName, TextWeight, KeysWeight;
    KeysUpdate(e.keys, i, l);
  }

  lemma CommentGain(d: Doc, section: string, comment: string, fold: bool)
    requires |d.names| == |d.keys|
    ensures Weight(WithComment(d, section, comment, fold)) <= Weight(d) + |comment|
  {
    var i := FindName(d.names, section, fold);
    hide FindName, TextWeight, KeysWeight;
    if i < |d.names| {
      var k := d.keys[i];
      TextAppend(k.comments, comment);
      KeysUpdate(d.keys, i, k.(comments := k.comments + [comment]));
    }
  }

  lemma HandleGain(r: Reader, raw: string, fold: bool)
    requires Paired(r.doc)
    ensures Weight(Handle(r, raw, fold).doc) <= Weight(r.doc) + Gain(raw)
  {
    var s := Trimmed(raw);
    var p := FirstMark(s);
    if s != "" && IsPrint(s[0]) && p < |s| {
      if s[p] == '[' {
        SectionGain(r.doc, s[p + 1..if AfterBracket(s) > p + 1 then AfterBracket(s) - 1 else p + 1]);
      } else if s[p] == '=' {
        ValueGain(r.doc, r.section, s[..p], s[p + 1..], fold);
      } else {
        TextAppend(r.doc.comments, s[p + 1..]);
        CommentGain(r.doc, r.section, s[p + 1..], fold);
      }
    }
    hide WithSection, WithValue, WithComment, FirstMark, AfterBracket, Trimmed, FindName, TextWeight, KeysWeight, IsPrint;
  }

  function TotalGain(lines: seq<string>): nat { if lines == [] then 0 else Gain(lines[0]) + TotalGain(lines[1..]) }

  lemma {:induction false} ReadGain(r: Reader, lines: seq<string>, fold: bool)
    requires Paired(r.doc)
    ensures Weight(ReadLines(r, lines, fold).doc) <= Weight(r.doc) + TotalGain(lines)
    decreases |lines|
  {
    hide Handle, Gain, Weight;
    if lines != [] && r.ok {
      HandleKeepsPairs(r, lines[0], fold);
      HandleGain(r, lines[0], fold);
      ReadGain(Handle(r, lines[0], fold), lines[1..], fold);
    }
  }

  lemma {:induction false} GainAppend(a: seq<string>, b: seq<string>)
    ensures TotalGain(a + b) == TotalGain(a) + TotalGain(b)
  {
    hide Gain;
    if a == [] {
      assert a + b == b;
    } else {
      assert (a + b)[1..] == a[1..] + b;
      GainAppend(a[1..], b);
    }
  }

  lemma GainOne(line: string)
    ensures TotalGain([line]) == Gain(line)
  {
    hide Gain;
    assert [line][1..] == [];
  }

  // ---------------------------------------------------------------- what the printed lines add

  /** Trimming a printed text never cuts more than its last character, and nothing where the line ends properly. */
  lemma TrimCuts(s: string, eol: string)
    requires eol == "\r" || eol == ""
    ensures var t := Trimmed(s + eol); t <= s && |s| <= |t| + 1 && (t == s <==> Ends(s, eol))
    ensures Trimmed(s + eol) != s ==> s[|s| - 1] == '\r'
  {
    assert s + "" == s;
    assert (s + "\r")[..|s|] == s;
  }

  lemma CommentLineGain(c: string, eol: string)
    requires eol == "\r" || eol == ""
    ensures Gain(";" + c + eol) <= |c| && (Gain(";" + c + eol) == |c| ==> Ends(";" + c, eol))
  {
    var t := Trimmed(";" + c + eol);
    TrimCuts(";" + c, eol);
    assert t != "" && t[0] == ';';
    assert FirstMark(t) == 0;
    hide Trimmed;
  }

  lemma SectionLineGain(name: string, eol: string)
    requires eol == "\r" || eol == ""
    ensures Gain("[" + name + "]" + eol) == 0
  {
    TrimCuts("[" + name + "]", eol);
    var t := Trimmed("[" + name + "]" + eol);
    assert t != "" && t[0] == '[';
    assert FirstMark(t) == 0;
    hide Trimmed;
  }

  lemma ValueLineGain(name: string, value: string, eol: string)
    requires eol == "\r" || eol == ""
    ensures var g := Gain(name + "=" + value + eol);
            g <= 2 * |name| + |value| + 1 &&
            (g == 2 * |name| + |value| + 1 ==> GoodName(name) && Ends(name + "=" + value, eol))
  {
    var s := name + "=" + value;
    var t := Trimmed(s + eol);
    TrimCuts(s, eol);
    hide Trimmed, Ends, IsPrint;
    assert s[|name|] == '=' && forall i :: 0 <= i < |name| ==> s[i] == name[i];
    assert |t| > |name| && t[|name|] == '=';
    var p := FirstMark(t);
    assert p <= |name| by {
      assert IsMark(t[|name|]);
    }
    if p == |name| {
      assert forall i :: 0 <= i < |name| ==> !IsMark(name[i]);
    }
    hide FirstMark;
  }

  lemma BlankGain(eol: string)
    requires eol == "\r" || eol == ""
    ensures Gain(eol) == 0
  {
  }

  lemma {:induction false} CommentsGain(cs: seq<string>, eol: string)
    requires eol == "\r" || eol == ""
    ensures TotalGain(CommentLines(cs, eol)) <= TextWeight(cs)
    ensures TotalGain(CommentLines(cs, eol)) == TextWeight(cs) ==> forall i :: 0 <= i < |cs| ==> Ends(";" + cs[i], eol)
  {
    hide Gain, CommentLines, Ends;
    if cs == [] {
      NoComments(eol);
    } else {
      FirstComment(cs, eol);
      CommentLineGain(cs[0], eol);
      CommentsGain(cs[1..], eol);
      GainOne(";" + cs[0] + eol);
      GainAppend([";" + cs[0] + eol], CommentLines(cs[1..], eol));
      assert forall i :: 0 < i < |cs| ==> cs[1..][i - 1] == cs[i];
    }
  }

  predicate ValuesWritable(k: Key, n: nat, eol: string)
    requires |k.names| == |k.values|
  {
    forall i :: n <= i < |k.names| ==> GoodName(k.names[i]) && Ends(k.names[i] + "=" + k.values[i], eol)
  }

  function ValuesWeight(k: Key, n: nat): nat
    requires n <= |k.names| == |k.values|
  {
    2 * TextWeight(k.names[n..]) + TextWeight(k.values[n..]) + |k.names| - n
  }

  lemma ValuesWeightStep(k: Key, n: nat)
    requires n < |k.names| == |k.values|
    ensures ValuesWeight(k, n) == 2 * |k.names[n]| + |k.values[n]| + 1 + ValuesWeight(k, n + 1)
  {
    assert k.names[n..][1..] == k.names[n + 1..] && k.values[n..][1..] == k.values[n + 1..];
  }

  lemma {:induction false} ValuesGain(k: Key, n: nat, eol: string)
    requires n <= |k.names| == |k.values| && (eol == "\r" || eol == "")
    ensures TotalGain(ValueLines(k, eol)[n..]) <= ValuesWeight(k, n)
    ensures TotalGain(ValueLines(k, eol)[n..]) == ValuesWeight(k, n) ==> ValuesWritable(k, n, eol)
    decreases |k.names| - n
  {
    if n == |k.names| {
      assert ValueLines(k, eol)[n..] == [];
    } else {
      var line := k.names[n] + "=" + k.values[n] + eol;
      hide Gain, ValueLines, Ends, GoodName, ValuesWeight;
      FirstValue(k, n, eol);
      ValuesWeightStep(k, n);
      ValueLineGain(k.names[n], k.values[n], eol);
      ValuesGain(k, n + 1, eol);
      GainOne(line);
      GainAppend([line], ValueLines(k, eol)[n + 1..]);
    }
  }

  lemma SectionGainIs(name: string, k: Key, eol: string)
    requires |k.names| == |k.values| && (eol == "\r" || eol == "")
    ensures TotalGain(SectionLines(name, k, eol)) == TotalGain(CommentLines(k.comments, eol)) + TotalGain(ValueLines(k, eol))
  {
    hide *;
    var first, c, v := "[" + name + "]" + eol, CommentLines(k.comments, eol), ValueLines(k, eol);
    SectionLinesAre(name, k, eol);
    SectionLineGain(name, eol);
    BlankGain(eol);
    GainOne(first);
    GainOne(eol);
    GainAppend([first], c + (v + [eol]));
    GainAppend(c, v + [eol]);
    GainAppend(v, [eol]);
  }

  lemma SectionGains(name: string, k: Key, eol: string)
    requires |k.names| == |k.values| && (eol == "\r" || eol == "")
    ensures TotalGain(SectionLines(name, k, eol)) <= KeyWeight(k)
    ensures TotalGain(SectionLines(name, k, eol)) == KeyWeight(k) ==> WritableKey(k, eol)
  {
    hide CommentLines, ValueLines, SectionLines, Ends, GoodName, TextWeight, TotalGain;
    var v := ValueLines(k, eol);
    assert v[0..] == v && k.names[0..] == k.names && k.values[0..] == k.values;
    SectionGainIs(name, k, eol);
    CommentsGain(k.comments, eol);
    ValuesGain(k, 0, eol);
  }

  lemma {:induction false} SectionsGain(d: Doc, i: nat, eol: string)
    requires Paired(d) && i <= |d.keys| && (eol == "\r" || eol == "")
    ensures TotalGain(SectionsFrom(d, i, eol)) <= KeysWeight(d.keys[i..])
    ensures TotalGain(SectionsFrom(d, i, eol)) == KeysWeight(d.keys[i..]) ==>
              forall j :: i <= j < |d.keys| ==> WritableKey(d.keys[j], eol)
    decreases |d.keys| - i
  {
    hide KeyWeight, SectionLines, WritableKey, Gain;
    if i < |d.keys| {
      assert d.keys[i..][1..] == d.keys[i + 1..];
      SectionGains(d.names[i], d.keys[i], eol);
      SectionsGain(d, i + 1, eol);
      GainAppend(SectionLines(d.names[i], d.keys[i], eol), SectionsFrom(d, i + 1, eol));
    }
  }

  lemma HeaderGain(d: Doc, eol: string)
    requires Paired(d) && (eol == "\r" || eol == "")
    ensures TotalGain(Print(d, eol)) == TotalGain(CommentLines(d.comments, eol)) + TotalGain(SectionsFrom(d, 0, eol))
  {
    var c, rest := CommentLines(d.comments, eol), SectionsFrom(d, 0, eol);
    NoComments(eol);
    BlankGain(eol);
    assert TotalGain([]) == 0;
    hide Gain, CommentLines, SectionsFrom, Print, TotalGain, Paired;
    PrintIs(d, eol);
    GainOne(eol);
    GainAppend(c, [eol] + rest);
    GainAppend([eol], rest);
  }

  /** The lines of a document add no more than it weighs, and less if anything in it cannot be written. */
  lemma PrintGain(d: Doc, eol: string)
    requires Paired(d) && (eol == "\r" || eol == "")
    ensures TotalGain(Print(d, eol)) <= Weight(d)
    ensures TotalGain(Print(d, eol)) == Weight(d) ==> Writable(d, eol)
  {
    assert d.keys[0..] == d.keys;
    hide CommentLines, SectionsFrom, Print, KeysWeight, TextWeight, TotalGain, WritableKey, Ends;
    HeaderGain(d, eol);
    CommentsGain(d.comments, eol);
    SectionsGain(d, 0, eol);
  }

  lemma PrintedWeighsLess(d: Doc, eol: string, fold: bool)
    requires Paired(d) && (eol == "\r" || eol == "")
    ensures Weight(Read(Nothing(), Print(d, eol), fold).doc) <= Weight(d)
    ensures Weight(Read(Nothing(), Print(d, eol), fold).doc) == Weight(d) ==> Writable(d, eol)
  {
    var lines, start := Print(d, eol), Reader(Nothing(), "", true);
    assert Weight(Nothing()) == 0;
    hide Gain, Print, Weight, ReadLines, TotalGain, WithoutBom, Writable;
    NoBomPrinted(d, eol);
    PrintGain(d, eol);
    ReadGain(start, lines, fold);
    if lines != [] {
      assert [lines[0]] + lines[1..] == lines;
    }
  }

  // ---------------------------------------------------------------- the round trip

  /**
   A document is restored from what is printed, comments, sections and values in order, exactly when it is writable and
   every section with contents is the first of its name.
   */
  lemma PrintThenRead(d: Doc, eol: string, fold: bool)
    requires Paired(d) && (eol == "\r" || eol == "")
    ensures var r := Read(Nothing(), Print(d, eol), fold);
            (r.doc == d <==> Writable(d, eol) && FirstsHoldAll(d, fold)) && (Writable(d, eol) ==> r.ok)
  {
    PrintedWeighsLess(d, eol, fold);
    hide Read, Print, Writable, FirstsHoldAll, Weight;
    if Writable(d, eol) {
      WritableThenRead(d, eol, fold);
    }
  }

  /** The line of a value named a;b in the only section s. */
  lemma MarkedLine(eol: string, fold: bool)
    requires eol == "\r" || eol == ""
    ensures Handle(Reader(Doc(["s"], [EMPTY], []), "s", true), "a;b=1" + eol, fold)
              == Reader(Doc(["s"], [Key([], [], ["b=1"])], []), "s", true)
  {
    assert FirstMark("a;b") == 1 by {
      assert "a;b"[1..] == ";b";
    }
    assert FindName(["s"], "s", fold) == 0;
    hide FirstMark, FindName, Handle;
    assert "a;b" + "=" + "1" == "a;b=1" && "a;b=1"[2..] == "b=1";
    ReadMarkedValue(Reader(Doc(["s"], [EMPTY], []), "s", true), "a;b", "1", eol, fold);
    assert EMPTY.(comments := [] + ["b=1"]) == Key([], [], ["b=1"]);
    assert WithComment(Doc(["s"], [EMPTY], []), "s", "b=1", fold) == Doc(["s"], [Key([], [], ["b=1"])], []);
  }

  lemma ReadThree(r: Reader, a: string, b: string, c: string, fold: bool)
    requires Paired(r.doc) && r.ok && Handle(r, a, fold).ok && Paired(Handle(r, a, fold).doc)
    requires var r2 := Handle(Handle(r, a, fold), b, fold); r2.ok && Paired(r2.doc) && Handle(r2, c, fold) == r2
    ensures ReadLines(r, [a, b, c], fold) == Handle(Handle(r, a, fold), b, fold)
  {
    hide Handle, ReadLines;
    var r1 := Handle(r, a, fold);
    var r2 := Handle(r1, b, fold);
    ReadStep(r, a, [b, c], fold);
    ReadStep(r1, b, [c], fold);
    ReadStep(r2, c, [], fold);
    ReadNothing(r2, fold);
    assert [a] + [b, c] == [a, b, c] && [b] + [c] == [b, c] && [c] + [] == [c];
  }

  lemma MarkedLines(eol: string)
    ensures var d := Doc(["s"], [Key(["a;b"], ["1"], [])], []);
            Paired(d) && Print(d, eol) == ["[s]" + eol, "a;b=1" + eol, eol]
  {
    var k := Key(["a;b"], ["1"], []);
    var d := Doc(["s"], [k], []);
    assert SectionsFrom(d, 1, eol) == [];
    assert "[" + "s" + "]" == "[s]" && "a;b" + "=" + "1" == "a;b=1";
    assert ValueLines(k, eol) == ["a;b=1" + eol] && CommentLines(k.comments, eol) == [];
    hide ValueLines, CommentLines;
    assert SectionLines("s", k, eol) == ["[s]" + eol, "a;b=1" + eol, eol];
  }

  /** So a value named a;b does not come back: its line is read as a comment. */
  lemma MarkedNameIsLost(eol: string, fold: bool)
    requires eol == "\r" || eol == ""
    ensures var d := Doc(["s"], [Key(["a;b"], ["1"], [])], []);
            Paired(d) && Read(Nothing(), Print(d, eol), fold) == Reader(Doc(["s"], [Key([], [], ["b=1"])], []), "s", true)
  {
    var d := Doc(["s"], [Key(["a;b"], ["1"], [])], []);
    var start := Reader(Nothing(), "", true);
    NoBomPrinted(d, eol);
    MarkedLines(eol);
    assert "[" + "s" + "]" == "[s]";
    assert WithSection(Nothing(), "s") == Doc(["s"], [EMPTY], []);
    hide Handle, ReadLines, Print, WithoutBom, WithSection;
    ReadSectionName(start, "s", eol, fold);
    MarkedLine(eol, fold);
    ReadBlank(Reader(Doc(["s"], [Key([], [], ["b=1"])], []), "s", true), eol, fold);
    ReadThree(start, "[s]" + eol, "a;b=1" + eol, eol, fold);
    var lines := Print(d, eol);
    assert [lines[0]] + lines[1..] == lines;
  }

  /** And a comment that ends in a carriage return loses it when lines end bare. */
  lemma ReturnIsLost(fold: bool)
    ensures Read(Nothing(), Print(Doc([], [], ["x\r"]), ""), fold).doc == Doc([], [], ["x"])
  {
    var d, start, end := Doc([], [], ["x\r"]), Reader(Nothing(), "", true), Reader(Doc([], [], ["x"]), "", true);
    var lines := [";x\r", ""];
    assert Print(d, "") == lines by {
      assert ";" + "x\r" + "" == ";x\r";
    }
    NoBomPrinted(d, "");
    hide Print;
    assert Trimmed(";x\r") == ";x" && FirstMark(";x") == 0 && ";x"[1..] == "x";
    assert Handle(start, ";x\r", fold) == end;
    ReadBlank(end, "", fold);
    hide Handle, ReadLines, WithoutBom;
    ReadStep(start, ";x\r", [""], fold);
    ReadStep(end, "", [], fold);
    ReadNothing(end, fold);
    assert lines == [";x\r"] + [""] && lines[1..] == [""] && [""] == [""] + [];
  }

  /**
   Whatever the lines were, and even if reading stopped at one of them: what was read comes back unchanged if it is
   written with carriage returns, and with bare line ends exactly if no text ends in a carriage return.
   */
  lemma RewritingIsStable(lines: seq<string>, fold: bool, eol: string)
    requires eol == "\r" || eol == ""
    ensures var d := Read(Nothing(), lines, fold).doc;
            Paired(d) && Writable(d, "\r") && (Read(Nothing(), Print(d, eol), fold).doc == d <==> Writable(d, eol))
  {
    var r := Read(Nothing(), lines, fold);
    var body := if lines == [] then [] else [WithoutBom(lines[0])] + lines[1..];
    ReadKeepsNames(Reader(Nothing(), "", true), body, fold);
    ReadKeepsFirsts(Reader(Nothing(), "", true), body, fold);
    assert GoodNames(r.doc);
    assert Writable(r.doc, "\r") by {
      hide Read, ReadLines, GoodName;
    }
    hide Read, ReadLines, GoodName, GoodNames, FirstsHoldAll, Print, Writable;
    PrintThenRead(r.doc, eol, fold);
  }
}
