/** What the scanner makes of texts the printer does not write: processing instructions,
    comments and spaces between the tags, and attributes spaced in any way. */
module XmlLayout {
  import opened XmlPrinter
  import opened XmlScanner
  import opened XmlRoundTrip
  import opened XmlExactness

  // ---------- Instructions and comments ----------

  /** The first occurrence of `mark` in `s` is the end of `s`. */
  ghost predicate EndsFirst(mark: string, s: string) {
    && |mark| <= |s| && mark <= s[|s| - |mark|..]
    && forall i :: 0 <= i < |s| - |mark| ==> !(mark <= s[i..])
  }

  lemma {:induction false} FindIs(mark: string, r: string, n: nat)
    requires n < |r| && mark <= r[n..] && forall i :: 0 <= i < n ==> !(mark <= r[i..])
    ensures Find(mark, r) == n
  {
    assert r[0..] == r;
    if n > 0 {
      assert r[1..][n - 1..] == r[n..];
      forall i | 0 <= i < n - 1 ensures !(mark <= r[1..][i..]) {
        assert r[1..][i..] == r[i + 1..];
      }
      FindIs(mark, r[1..], n - 1);
    }
  }

  lemma PrefixOfLonger(mark: string, r: string, tail: string)
    requires |mark| <= |r|
    ensures mark <= r + tail <==> mark <= r
  {
    assert (r + tail)[..|mark|] == r[..|mark|];
  }

  lemma SkipMark(mark: string, s: string, tail: string, out: string)
    requires mark != [] && EndsFirst(mark, s)
    ensures SkipThrough(mark, Cursor(s + tail, out)) == Cursor(tail, out)
  {
    var n, r := |s| - |mark|, s + tail;
    forall i | 0 <= i <= n ensures mark <= r[i..] <==> mark <= s[i..] {
      assert r[i..] == s[i..] + tail;
      PrefixOfLonger(mark, s[i..], tail);
    }
    FindIs(mark, r, n);
    assert r[n + |mark|..] == tail;
  }

  lemma SkipUnended(mark: string, c: Cursor)
    requires mark != [] && forall i :: 0 <= i < |c.rest| ==> !(mark <= c.rest[i..])
    ensures SkipThrough(mark, c) == Cursor([], c.out)
  {
    FindIsFirst(mark, c.rest, Find(mark, c.rest));
  }

  lemma TurnIsSkip(c: Cursor)
    ensures "<?" <= c.rest ==> Turn(c) == SkipThrough("?>", c)
    ensures "<!--" <= c.rest ==> Turn(c) == SkipThrough("-->", c)
  {
    hide SkipThrough, CopyElement, CopyContent;
    if c.rest != [] && c.rest[0] == '<' {
      assert Skip(c) == c by { assert c.rest[0..] == c.rest; }
      assert "<!--" <= c.rest ==> c.rest[1] == '!';
      assert "<?" <= c.rest ==> c.rest[1] == '?';
    }
  }

  /** A processing instruction leaves nothing behind. */
  lemma StripInstruction(p: string, tail: string, out: string)
    requires EndsFirst("?>", "<?" + p + "?>")
    ensures Strip(Cursor("<?" + p + "?>" + tail, out)) == Strip(Cursor(tail, out))
  {
    hide Turn, EndsFirst, SkipThrough;
    var c := Cursor("<?" + p + "?>" + tail, out);
    SkipMark("?>", "<?" + p + "?>", tail, out);
    assert "<?" <= c.rest;
    TurnIsSkip(c);
  }

  /** Nor does a comment. */
  lemma StripComment(p: string, tail: string, out: string)
    requires EndsFirst("-->", "<!--" + p + "-->")
    ensures Strip(Cursor("<!--" + p + "-->" + tail, out)) == Strip(Cursor(tail, out))
  {
    hide Turn, EndsFirst, SkipThrough;
    var c := Cursor("<!--" + p + "-->" + tail, out);
    SkipMark("-->", "<!--" + p + "-->", tail, out);
    assert "<!--" <= c.rest;
    TurnIsSkip(c);
  }

  /** One that does not end takes the rest of the text with it. */
  lemma StripUnended(c: Cursor, mark: string)
    requires ("<?" <= c.rest && mark == "?>") || ("<!--" <= c.rest && mark == "-->")
    requires forall i :: 0 <= i < |c.rest| ==> !(mark <= c.rest[i..])
    ensures Strip(c) == c.out
  {
    hide Turn, SkipThrough;
    SkipUnended(mark, c);
    TurnIsSkip(c);
  }

  // ---------- Layout ----------

  datatype Mark = Instruction(text: string, spaces: string) | Comment(text: string, spaces: string)

  /** Spaces, then instructions and comments with spaces behind each. */
  datatype Layout = Layout(spaces: string, marks: seq<Mark>)

  ghost predicate IsMark(m: Mark) {
    && Clear(Blank, m.spaces)
    && match m
       case Instruction(text, _) => EndsFirst("?>", "<?" + text + "?>")
       case Comment(text, _) => EndsFirst("-->", "<!--" + text + "-->")
  }

  ghost predicate IsLayout(l: Layout) {
    Clear(Blank, l.spaces) && forall i :: 0 <= i < |l.marks| ==> IsMark(l.marks[i])
  }

  function MarkText(m: Mark): string {
    match m
    case Instruction(text, spaces) => "<?" + text + "?>" + spaces
    case Comment(text, spaces) => "<!--" + text + "-->" + spaces
  }

  function MarksText(ms: seq<Mark>): string {
    if ms == [] then [] else MarkText(ms[0]) + MarksText(ms[1..])
  }

  function LayoutText(l: Layout): string {
    l.spaces + MarksText(l.marks)
  }

  lemma StripMark(m: Mark, tail: string, out: string)
    requires IsMark(m) && tail != []
    ensures Strip(Cursor(MarkText(m) + tail, out)) == Strip(Cursor(tail, out))
  {
    hide Strip, EndsFirst;
    StripLead(m.spaces, tail, out);
    match m
    case Instruction(text, spaces) =>
      assert MarkText(m) + tail == "<?" + text + "?>" + (spaces + tail);
      StripInstruction(text, spaces + tail, out);
    case Comment(text, spaces) =>
      assert MarkText(m) + tail == "<!--" + text + "-->" + (spaces + tail);
      StripComment(text, spaces + tail, out);
  }

  lemma {:induction false} StripMarks(ms: seq<Mark>, tail: string, out: string)
    requires tail != [] && forall i :: 0 <= i < |ms| ==> IsMark(ms[i])
    ensures Strip(Cursor(MarksText(ms) + tail, out)) == Strip(Cursor(tail, out))
  {
    hide Strip, IsMark, MarkText;
    if ms == [] {
      assert MarksText(ms) + tail == tail;
    } else {
      var more := MarksText(ms[1..]) + tail;
      assert MarksText(ms) + tail == MarkText(ms[0]) + more;
      StripMark(ms[0], more, out);
      StripMarks(ms[1..], tail, out);
    }
  }

  /** Layout before the rest of a text makes no difference. */
  lemma StripLayout(l: Layout, tail: string, out: string)
    requires IsLayout(l) && tail != []
    ensures Strip(Cursor(LayoutText(l) + tail, out)) == Strip(Cursor(tail, out))
  {
    hide Strip, IsMark, MarksText;
    assert LayoutText(l) + tail == l.spaces + (MarksText(l.marks) + tail);
    StripLead(l.spaces, MarksText(l.marks) + tail, out);
    StripMarks(l.marks, tail, out);
  }

  // ---------- Attributes spaced in any way ----------

  /** An attribute with its spaces; `value` is what stands between the quotes. */
  datatype Loose =
    | Valued(lead: string, name: string, before: string, after: string, value: string)
    | Bare(lead: string, name: string, after: string)

  ghost predicate IsLoose(a: Loose) {
    && Clear(Blank, a.lead) && Clear(Blank, a.after) && Clear(AttributeName, a.name)
    && (a.Valued? ==> Clear(Blank, a.before) && Clear(Quoted, a.value) && (a.name == [] ==> a.before == []))
    && (a.Bare? ==> a.name != [])
  }

  function LooseText(a: Loose): string {
    match a
    case Valued(lead, name, before, after, value) =>
      lead + (name + (before + ("=" + (after + ("\"" + (value + "\""))))))
    case Bare(lead, name, after) => lead + (name + after)
  }

  /** What is copied: one space for those before the name, none around the equals sign,
      and one behind a name without a value. */
  function NeatText(a: Loose): string {
    (if a.lead == [] then "" else " ")
    + if a.Valued? then a.name + "=\"" + a.value + "\"" else a.name + " "
  }

  function LooseAll(s: seq<Loose>): string {
    if s == [] then [] else LooseText(s[0]) + LooseAll(s[1..])
  }

  function NeatAll(s: seq<Loose>): string {
    if s == [] then [] else NeatText(s[0]) + NeatAll(s[1..])
  }

  /** The spaces behind a name without a value belong to it, and they are not missing. */
  ghost predicate Fits(s: seq<Loose>, close: string) {
    if s == [] then Clear(Blank, close)
    else
      && IsLoose(s[0]) && Fits(s[1..], close)
      && (s[0].Bare? ==>
            if |s| == 1 then close == []
            else s[1].lead == [] && s[0].after != [] && s[1].name != [])
  }

  lemma SkipTo(lead: string, r: string, out: string)
    requires Clear(Blank, lead) && r != [] && !IsSpace(r[0])
    ensures Skip(Cursor(lead + r, out)) == Cursor(r, out)
    ensures AtSpace(Cursor(lead + r, out)) <==> lead != []
  {
    hide Len;
    RunOf(Blank, lead, r, out);
    assert lead != [] ==> (lead + r)[0] == lead[0];
    assert lead == [] ==> lead + r == r;
  }

  /** Where the copying of an attribute starts from: its spaces are one. */
  lemma LeadIsOne(lead: string, r: string, out: string)
    requires Clear(Blank, lead) && r != [] && !IsSpace(r[0]) && r[0] != '>'
    ensures var c := Cursor(lead + r, out);
      && !(">" <= Skip(c).rest)
      && CopyAttribute(c) == NamedAttribute(Cursor(r, out + if lead == [] then "" else " "))
  {
    hide NamedAttribute, Skip;
    SkipTo(lead, r, out);
    assert out + "" == out;
  }

  lemma LooseValue(after: string, value: string, more: string, out: string)
    requires Clear(Blank, after) && Clear(Quoted, value)
    ensures CopyValue(Cursor(after + ("\"" + (value + ("\"" + more))), out)) == Cursor(more, out + "\"" + value + "\"")
  {
    hide Skip, CopyThroughQuote;
    var r := "\"" + (value + ("\"" + more));
    SkipTo(after, r, out);
    SkipTo("", r, out);
    assert "" + r == r;
    ReadValue(value, more, out);
  }

  lemma ReadAttributeName(name: string, spaces: string, r: string, out: string)
    requires Clear(AttributeName, name) && Clear(Blank, spaces) && r != [] && !IsSpace(r[0])
    requires spaces != [] || Stops(AttributeName, r[0])
    ensures Skip(Copy(AttributeName, Cursor(name + (spaces + r), out))) == Cursor(r, out + name)
  {
    hide Len, Copy, Skip;
    assert (spaces + r)[0] == if spaces == [] then r[0] else spaces[0];
    RunOf(AttributeName, name, spaces + r, out);
    SkipTo(spaces, r, out + name);
  }

  lemma NeatIs(a: Loose, out: string)
    requires a.Valued?
    ensures (out + if a.lead == [] then "" else " ") + a.name + "=" + "\"" + a.value + "\"" == out + NeatText(a)
  {
  }

  lemma ReadValued(a: Loose, more: string, out: string)
    requires a.Valued? && IsLoose(a)
    ensures var c := Cursor(LooseText(a) + more, out);
      && !(">" <= Skip(c).rest) && CopyAttribute(c) == Cursor(more, out + NeatText(a))
  {
    hide CopyAttribute, NamedAttribute, CopyValue, Len, Copy, Skip, NeatText;
    var v := a.after + ("\"" + (a.value + ("\"" + more)));
    var e := "=" + v;
    var r := a.name + (a.before + e);
    assert LooseText(a) + more == a.lead + r;
    assert r[0] == if a.name == [] then '=' else a.name[0];
    LeadIsOne(a.lead, r, out);
    var start := out + if a.lead == [] then "" else " ";
    ReadAttributeName(a.name, a.before, e, start);
    LooseValue(a.after, a.value, more, start + a.name + "=");
    NamedValue(Cursor(r, start), Cursor(e, start + a.name));
    assert e[1..] == v;
    NeatIs(a, out);
  }

  lemma NamedValue(c: Cursor, named: Cursor)
    requires named == Skip(Copy(AttributeName, c)) && "=" <= named.rest
    ensures NamedAttribute(c) == CopyValue(Cursor(named.rest[1..], named.out + "="))
  {
    hide CopyValue, Skip, Copy;
    assert named.rest[0] == '=';
  }

  lemma ReadBare(a: Loose, more: string, out: string)
    requires a.Bare? && IsLoose(a)
    requires more != [] && !IsSpace(more[0]) && more[0] != '=' && (a.after == [] ==> more[0] == '>')
    ensures var c := Cursor(LooseText(a) + more, out);
      && !(">" <= Skip(c).rest) && CopyAttribute(c) == Cursor(more, out + NeatText(a))
  {
    hide CopyAttribute, CopyValue, Len, Copy, Skip;
    var r := a.name + (a.after + more);
    assert LooseText(a) + more == a.lead + r;
    assert r[0] == a.name[0];
    LeadIsOne(a.lead, r, out);
    var start := out + if a.lead == [] then "" else " ";
    ReadAttributeName(a.name, a.after, more, start);
    assert start + a.name + " " == out + NeatText(a);
  }

  lemma ReadLooseClose(close: string, tail: string, out: string)
    requires Clear(Blank, close)
    ensures CopyAttributes(Cursor(close + (">" + tail), out)) == Cursor(tail, out + ">")
  {
    hide CopyAttribute, Skip;
    SkipTo(close, ">" + tail, out);
    assert (">" + tail)[1..] == tail;
  }

  lemma CopyMore(c: Cursor, next: Cursor)
    requires !(">" <= Skip(c).rest) && CopyAttribute(c) == next && next.rest != []
    ensures CopyAttributes(c) == CopyAttributes(next)
  {
    hide CopyAttribute, Skip;
  }

  /** The start of what follows a name without a value. */
  lemma AfterBare(s: seq<Loose>, close: string, tail: string)
    requires s != [] && s[0].Bare? && Fits(s, close)
    ensures var more := LooseAll(s[1..]) + (close + (">" + tail));
      more != [] && !IsSpace(more[0]) && more[0] != '=' && (s[0].after == [] ==> more[0] == '>')
  {
    if |s| == 1 {
      assert LooseAll(s[1..]) + (close + (">" + tail)) == ">" + tail;
    } else {
      assert s[1] == s[1..][0];
      assert LooseText(s[1])[0] == s[1].name[0];
    }
  }

  /** The attributes of a tag, spaced in any way, are copied in their neat form. */
  lemma {:induction false} ReadLoose(s: seq<Loose>, close: string, tail: string, out: string)
    requires Fits(s, close)
    ensures CopyAttributes(Cursor(LooseAll(s) + (close + (">" + tail)), out)) == Cursor(tail, out + (NeatAll(s) + ">"))
  {
    hide CopyAttribute, CopyAttributes, LooseText, NeatText, IsLoose, Skip;
    var end := close + (">" + tail);
    if s == [] {
      assert LooseAll(s) + end == end && NeatAll(s) + ">" == ">";
      ReadLooseClose(close, tail, out);
    } else {
      var more := LooseAll(s[1..]) + end;
      assert LooseAll(s) + end == LooseText(s[0]) + more;
      if s[0].Valued? {
        ReadValued(s[0], more, out);
      } else {
        AfterBare(s, close, tail);
        ReadBare(s[0], more, out);
      }
      CopyMore(Cursor(LooseText(s[0]) + more, out), Cursor(more, out + NeatText(s[0])));
      ReadLoose(s[1..], close, tail, out + NeatText(s[0]));
      assert out + NeatText(s[0]) + (NeatAll(s[1..]) + ">") == out + (NeatAll(s) + ">");
    }
  }

  /** A tag whose attributes are spaced in any way. */
  lemma StripLooseTag(name: string, s: seq<Loose>, close: string, tail: string, out: string)
    requires IsName(name) && Fits(s, close) && (s != [] ==> s[0].lead != [])
    ensures Strip(Cursor("<" + (name + (LooseAll(s) + (close + (">" + tail)))), out))
         == Strip(Cursor(tail, out + ("<" + name + NeatAll(s) + ">")))
  {
    hide Turn, LooseAll, NeatAll, IsName, Fits;
    TurnAtLooseTag(name, s, close, tail, out);
    assert out + ("<" + name) + (NeatAll(s) + ">") == out + ("<" + name + NeatAll(s) + ">") by {
      Join3(out, "<" + name, NeatAll(s), ">");
    }
  }

  lemma TurnAtLooseTag(name: string, s: seq<Loose>, close: string, tail: string, out: string)
    requires IsName(name) && Fits(s, close) && (s != [] ==> s[0].lead != [])
    ensures Turn(Cursor("<" + (name + (LooseAll(s) + (close + (">" + tail)))), out))
         == Cursor(tail, out + ("<" + name) + (NeatAll(s) + ">"))
  {
    hide Turn, Copy, CopyAttributes, LooseAll, NeatAll, IsName, Fits;
    var b := LooseAll(s) + (close + (">" + tail));
    LooseStart(s, close, tail);
    ReadTagName(name, b, out);
    ReadLoose(s, close, tail, out + ("<" + name));
    TurnIsElement(Cursor("<" + (name + b), out));
  }

  lemma LooseStart(s: seq<Loose>, close: string, tail: string)
    requires Fits(s, close) && (s != [] ==> s[0].lead != [])
    ensures var b := LooseAll(s) + (close + (">" + tail)); b != [] && (IsSpace(b[0]) || b[0] == '>')
  {
    if s == [] {
      assert LooseAll(s) + (close + (">" + tail)) == close + (">" + tail);
    } else {
      assert LooseText(s[0])[0] == s[0].lead[0];
    }
  }

  // ---------- Whole documents ----------

  /** An element with all its layout: behind the start tag, behind each child, behind the
      text.  `trail` is what stands behind the end tag in its parent. */
  datatype Doc = Doc(name: string, attributes: seq<Loose>, close: string, open: Layout, children: seq<Doc>,
                     text: string, after: Layout, endClose: string, trail: Layout)

  ghost predicate IsDoc(d: Doc) {
    && IsName(d.name) && Fits(d.attributes, d.close) && (d.attributes != [] ==> d.attributes[0].lead != [])
    && IsLayout(d.open) && IsLayout(d.after) && IsLayout(d.trail) && Clear(Content, d.text)
    && Clear(Blank, d.endClose)
    && forall i :: 0 <= i < |d.children| ==> IsDoc(d.children[i])
  }

  function OpenText(d: Doc): string {
    "<" + (d.name + (LooseAll(d.attributes) + (d.close + ">")))
  }

  function CloseText(d: Doc): string {
    "</" + (d.name + (d.endClose + ">"))
  }

  function DocText(d: Doc): string
    decreases d, 0
  {
    OpenText(d) + (LayoutText(d.open) + (DocsText(d.children) + (d.text + (LayoutText(d.after) + CloseText(d)))))
  }

  function DocsText(ds: seq<Doc>): string
    decreases ds, |ds|
  {
    if ds == [] then [] else DocText(ds[0]) + (LayoutText(ds[0].trail) + DocsText(ds[1..]))
  }

  /** The same without any layout. */
  function Neat(d: Doc): string
    decreases d, 0
  {
    "<" + d.name + NeatAll(d.attributes) + ">" + NeatDocs(d.children) + Trim(d.text) + ("</" + d.name + ">")
  }

  function NeatDocs(ds: seq<Doc>): string
    decreases ds, |ds|
  {
    if ds == [] then [] else Neat(ds[0]) + NeatDocs(ds[1..])
  }

  lemma StripOpen(d: Doc, tail: string, out: string)
    requires IsDoc(d)
    ensures Strip(Cursor(OpenText(d) + tail, out)) == Strip(Cursor(tail, out + ("<" + d.name + NeatAll(d.attributes) + ">")))
  {
    hide Strip, LooseAll, NeatAll, Fits, IsName, IsLayout;
    StripLooseTag(d.name, d.attributes, d.close, tail, out);
    TagText("<", d.name, LooseAll(d.attributes), d.close + ">", tail);
    assert OpenText(d) + tail == "<" + (d.name + (LooseAll(d.attributes) + (d.close + (">" + tail))));
  }

  lemma StripClose(d: Doc, tail: string, out: string)
    requires IsDoc(d)
    ensures Strip(Cursor(CloseText(d) + tail, out)) == Strip(Cursor(tail, out + ("</" + d.name + ">")))
  {
    hide Strip, IsLayout;
    var name := "/" + d.name;
    assert name[0] == '/';
    assert forall i :: 0 < i < |name| ==> name[i] == d.name[i - 1];
    StripLooseTag(name, [], d.endClose, tail, out);
    assert CloseText(d) + tail == "<" + (name + (LooseAll([]) + (d.endClose + (">" + tail))));
    assert "<" + name + NeatAll([]) + ">" == "</" + d.name + ">";
  }

  /** Text and the layout behind it, up to the end tag. */
  lemma StripText(d: Doc, tail: string, out: string)
    requires IsDoc(d) && "<" <= tail
    ensures Strip(Cursor(d.text + (LayoutText(d.after) + tail), out)) == Strip(Cursor(tail, out + Trim(d.text)))
  {
    hide Strip, Trim, IsMark, MarksText, Fits;
    var more := MarksText(d.after.marks) + tail;
    MarksStart(d.after.marks, tail);
    assert "" + (d.text + (d.after.spaces + more)) == d.text + (LayoutText(d.after) + tail);
    StripContent("", d.text, d.after.spaces, more, out);
    StripMarks(d.after.marks, tail, out + Trim(d.text));
  }

  lemma MarksStart(ms: seq<Mark>, tail: string)
    requires "<" <= tail
    ensures "<" <= MarksText(ms) + tail
  {
    if ms == [] { assert MarksText(ms) + tail == tail; }
  }

  /** The scanner sees nothing of the layout. */
  lemma {:induction false} StripDoc(d: Doc, tail: string, out: string)
    requires IsDoc(d)
    ensures Strip(Cursor(DocText(d) + tail, out)) == Strip(Cursor(tail, out + Neat(d)))
    decreases d, 0
  {
    hide Strip, OpenText, CloseText, LayoutText, IsLayout, DocsText, NeatDocs, NeatAll, Trim, IsName, Fits;
    var close := CloseText(d) + tail;
    var text := d.text + (LayoutText(d.after) + close);
    var kids := DocsText(d.children) + text;
    var open := "<" + d.name + NeatAll(d.attributes) + ">";
    CloseStart(d, tail);
    assert text != [];
    Group(OpenText(d), LayoutText(d.open), DocsText(d.children), d.text, LayoutText(d.after), CloseText(d), tail);
    StripOpen(d, LayoutText(d.open) + kids, out);
    StripLayout(d.open, kids, out + open);
    StripDocs(d.children, text, out + open);
    StripText(d, close, out + open + NeatDocs(d.children));
    StripClose(d, tail, out + open + NeatDocs(d.children) + Trim(d.text));
    assert out + open + NeatDocs(d.children) + Trim(d.text) + ("</" + d.name + ">") == out + Neat(d);
  }

  lemma CloseStart(d: Doc, tail: string)
    ensures "<" <= CloseText(d) + tail
  {
  }

  lemma Group(a: string, b: string, c: string, d: string, e: string, f: string, x: string)
    ensures (a + (b + (c + (d + (e + f))))) + x == a + (b + (c + (d + (e + (f + x)))))
  {
  }

  lemma {:induction false} StripDocs(ds: seq<Doc>, tail: string, out: string)
    requires tail != [] && forall i :: 0 <= i < |ds| ==> IsDoc(ds[i])
    ensures Strip(Cursor(DocsText(ds) + tail, out)) == Strip(Cursor(tail, out + NeatDocs(ds)))
    decreases ds, |ds|
  {
    hide Strip, DocText, LayoutText, Neat, IsLayout;
    if ds == [] {
      assert DocsText(ds) + tail == tail && out + NeatDocs(ds) == out;
    } else {
      var more := DocsText(ds[1..]) + tail;
      assert DocsText(ds) + tail == DocText(ds[0]) + (LayoutText(ds[0].trail) + more);
      StripDoc(ds[0], LayoutText(ds[0].trail) + more, out);
      StripLayout(ds[0].trail, more, out + Neat(ds[0])) by { assert IsLayout(ds[0].trail); }
      StripDocs(ds[1..], tail, out + Neat(ds[0]));
      assert out + Neat(ds[0]) + NeatDocs(ds[1..]) == out + NeatDocs(ds);
    }
  }

  /** Layout at the end of a text that ends with a bracket. */
  lemma StripEnd(l: Layout, out: string)
    requires IsLayout(l) && out != [] && out[|out| - 1] == '>'
    ensures Strip(Cursor(LayoutText(l), out)) == out
  {
    hide IsMark, MarksText;
    if l.marks == [] {
      assert MarksText(l.marks) == [] by { NoMarks(); }
      assert LayoutText(l) == l.spaces;
      StripSpaces(l.spaces, out);
    } else {
      MarksFirst(l.marks);
      assert LayoutText(l) == l.spaces + MarksText(l.marks);
      StripLead(l.spaces, MarksText(l.marks), out);
      StripLastMarks(l.marks, out);
    }
  }

  lemma NoMarks()
    ensures MarksText([]) == []
  {
  }

  lemma MarksFirst(ms: seq<Mark>)
    requires ms != []
    ensures MarksText(ms) != []
  {
  }

  lemma StripSpaces(spaces: string, out: string)
    requires Clear(Blank, spaces) && out != [] && out[|out| - 1] == '>'
    ensures Strip(Cursor(spaces, out)) == out
  {
    hide Len, Copy, SkipThrough, CopyElement;
    if spaces != [] {
      var c := Cursor(spaces, out);
      RunOf(Blank, spaces, "", out);
      assert spaces + "" == spaces;
      CopyEnd(Content, Cursor("", out));
      assert Turn(c) == Cursor("", out);
    }
  }

  lemma {:induction false} StripLastMarks(ms: seq<Mark>, out: string)
    requires (forall i :: 0 <= i < |ms| ==> IsMark(ms[i])) && out != [] && out[|out| - 1] == '>'
    ensures Strip(Cursor(MarksText(ms), out)) == out
  {
    hide Strip, IsMark, MarkText;
    if ms == [] {
      StripNothing(out);
    } else if |ms| == 1 {
      assert MarksText(ms) == MarkText(ms[0]);
      StripLastMark(ms[0], out);
    } else {
      MarksFirst(ms[1..]);
      StripMark(ms[0], MarksText(ms[1..]), out);
      StripLastMarks(ms[1..], out);
    }
  }

  lemma StripNothing(out: string)
    ensures Strip(Cursor([], out)) == out
  {
  }

  lemma StripLastMark(m: Mark, out: string)
    requires IsMark(m) && out != [] && out[|out| - 1] == '>'
    ensures Strip(Cursor(MarkText(m), out)) == out
  {
    hide Strip, EndsFirst;
    StripSpaces(m.spaces, out);
    match m
    case Instruction(text, spaces) => StripInstruction(text, spaces, out);
    case Comment(text, spaces) => StripComment(text, spaces, out);
  }

  lemma NeatEnds(d: Doc)
    ensures Neat(d) != [] && Neat(d)[|Neat(d)| - 1] == '>'
  {
    hide NeatAll, NeatDocs, Trim;
  }

  /** A whole document: prologue, element, and what stands behind it. */
  lemma DocumentIsNeat(lead: Layout, d: Doc)
    requires IsLayout(lead) && IsDoc(d)
    ensures Stripped(LayoutText(lead) + (DocText(d) + LayoutText(d.trail))) == Neat(d)
  {
    hide Strip, LayoutText, IsLayout, Neat;
    var rest := DocText(d) + LayoutText(d.trail);
    assert rest != [];
    StripLayout(lead, rest, "");
    StripDoc(d, LayoutText(d.trail), "");
    assert "" + Neat(d) == Neat(d);
    NeatEnds(d);
    StripEnd(d.trail, Neat(d)) by { assert IsLayout(d.trail); }
  }

  // ---------- Trees in any layout ----------

  /** The document writes the tree: its names, values and contents, escaped. */
  ghost predicate Writes(d: Doc, e: Element) {
    && d.name == e.name && d.text == Escape(e.content)
    && |d.attributes| == |e.attributes| && |d.children| == |e.children|
    && (forall i :: 0 <= i < |d.attributes| ==> WritesAttribute(d.attributes[i], e.attributes[i]))
    && forall i :: 0 <= i < |d.children| ==> Writes(d.children[i], e.children[i])
  }

  ghost predicate WritesAttribute(l: Loose, a: Attribute) {
    l.Valued? && l.lead != [] && l.name == a.name && l.value == Escape(a.value)
  }

  lemma {:induction false} NeatIsText(s: seq<Loose>, t: seq<Attribute>)
    requires |s| == |t| && forall i :: 0 <= i < |s| ==> WritesAttribute(s[i], t[i])
    ensures NeatAll(s) == AttributesText(t)
  {
    hide Escape;
    if s != [] {
      assert WritesAttribute(s[0], t[0]);
      NeatIsText(s[1..], t[1..]);
      assert NeatText(s[0]) == " " + AttributeText(t[0]);
    }
  }

  lemma {:induction false} NeatIsCompact(d: Doc, e: Element)
    requires Writes(d, e)
    ensures Neat(d) == Compact(e)
    decreases d, 0
  {
    hide Trim, Escape, NeatAll, AttributesText, NeatDocs, CompactAll, WritesAttribute;
    NeatIsText(d.attributes, e.attributes);
    NeatAreCompact(d.children, e.children);
    assert StartTag(e) == "<" + e.name + AttributesText(e.attributes) + ">";
  }

  lemma {:induction false} NeatAreCompact(ds: seq<Doc>, es: seq<Element>)
    requires |ds| == |es| && forall i :: 0 <= i < |ds| ==> Writes(ds[i], es[i])
    ensures NeatDocs(ds) == CompactAll(es)
    decreases ds, |ds|
  {
    hide Neat, Compact;
    if ds != [] {
      NeatIsCompact(ds[0], es[0]) by { assert Writes(ds[0], es[0]); }
      NeatAreCompact(ds[1..], es[1..]);
    }
  }

  /** A tree, written with any layout, strips to its compact form. */
  lemma LayoutIsIgnored(lead: Layout, d: Doc, e: Element)
    requires IsLayout(lead) && IsDoc(d) && Writes(d, e)
    ensures Stripped(LayoutText(lead) + (DocText(d) + LayoutText(d.trail))) == Compact(e)
  {
    DocumentIsNeat(lead, d);
    NeatIsCompact(d, e);
  }

  /** Comparing two documents compares the trees they write, whatever the layout. */
  lemma DocumentComparisonIsExact(lead: Layout, d: Doc, e: Element, lead': Layout, d': Doc, e': Element)
    requires IsLayout(lead) && IsDoc(d) && Writes(d, e) && Taggable(e)
    requires IsLayout(lead') && IsDoc(d') && Writes(d', e') && Taggable(e')
    ensures var text, text' := LayoutText(lead) + (DocText(d) + LayoutText(d.trail)),
                               LayoutText(lead') + (DocText(d') + LayoutText(d'.trail));
      Stripped(text) == Stripped(text') <==> Normal(e) == Normal(e')
  {
    hide Stripped, DocText, LayoutText, Compact, Normal, Writes, IsDoc, IsLayout;
    LayoutIsIgnored(lead, d, e);
    LayoutIsIgnored(lead', d', e');
    if Compact(e) == Compact(e') { CompactUnique(e, "", e', ""); }
    if Normal(e) == Normal(e') { CompactOfNormal(e, e'); }
  }

  /** A printed tree behind any prologue, such as the XML declarations of a document. */
  lemma PrologueIsIgnored(lead: Layout, e: Element, indent: string)
    requires IsLayout(lead) && WellNamed(e) && Clear(Blank, indent)
    ensures Stripped(LayoutText(lead) + Print(e, indent)) == Compact(e)
  {
    hide Strip, Print, LayoutText, IsLayout, Compact;
    ScannerCancelsPrinter(e, indent);
    PrintedIsText(e, indent);
    StripLayout(lead, Print(e, indent), "");
  }

  lemma PrintedIsText(e: Element, indent: string)
    ensures Print(e, indent) != []
  {
    hide Escape, PrintAll, AttributesText;
  }

  // ---------- The documents the program writes ----------

  const XML := "xml version=\"1.0\" encoding='"
  const SHEET := "xml-stylesheet type=\"text/xsl\" href=\""

  function Declaration(encoding: string, standalone: bool): string {
    "<?" + XML + encoding + "'" + (if standalone then " standalone='yes'" else "") + " ?>\n"
  }

  function StyleSheet(href: string): string {
    "<?" + SHEET + href + "\"?>\n"
  }

  /** XmlDocument::toString: the declaration, the style sheet if there is one, the tree. */
  function DocumentText(encoding: string, standalone: bool, styleSheet: string, e: Element): string {
    Declaration(encoding, standalone) + (if styleSheet == [] then "" else StyleSheet(styleSheet)) + Print(e, "")
  }

  lemma TwoCharacters(t: string)
    ensures "?>" <= t ==> |t| >= 2 && t[0] == '?' && t[1] == '>'
  {
  }

  /** No end of an instruction in the text. */
  ghost predicate Unended(s: string) {
    forall i :: 0 <= i < |s| - 1 && s[i] == '?' ==> s[i + 1] != '>'
  }

  lemma UnendedEndsFirst(p: string)
    requires Unended(p) && p != [] && p[0] != '>' && p[|p| - 1] != '?'
    ensures EndsFirst("?>", "<?" + p + "?>")
  {
    var s := "<?" + p + "?>";
    assert s[|s| - 2..] == "?>";
    forall i | 0 <= i < |s| - 2 ensures !("?>" <= s[i..]) {
      TwoCharacters(s[i..]);
      assert s[i..][0] == s[i] && s[i..][1] == s[i + 1];
      if i >= 2 { assert s[i] == p[i - 2]; }
      if 2 <= i < |s| - 3 { assert s[i + 1] == p[i - 1]; }
      assert s[2] == p[0];
    }
  }

  /** ... nor in a text put between others that hold no question mark. */
  lemma UnendedBetween(a: string, s: string, b: string)
    requires Unended(s) && '?' !in a && '?' !in b && a != [] && b != [] && b[0] != '>'
    ensures var p := a + (s + b); Unended(p) && p[0] == a[0] && p[|p| - 1] != '?'
  {
    var p := a + (s + b);
    assert forall i :: 0 <= i < |a| ==> p[i] == a[i];
    assert forall i :: |a| + |s| <= i < |p| ==> p[i] == b[i - |a| - |s|];
    forall i | 0 <= i < |p| - 1 && p[i] == '?' ensures p[i + 1] != '>' {
      assert p[i] == s[i - |a|];
      assert p[i + 1] == if i + 1 < |a| + |s| then s[i + 1 - |a|] else b[0];
    }
    assert p[|p| - 1] == b[|b| - 1];
  }

  lemma Around(a: string, b: string, c: string, d: string, e: string, f: string, g: string, h: string)
    ensures a + b + c + d + e + (f + g + h) == a + (b + (c + (d + (e + f)))) + g + h
    ensures a + b + c + (d + g + h) == a + (b + (c + d)) + g + h
  {
  }

  lemma Starts()
    ensures '?' !in XML && XML != [] && XML[0] == 'x' && '?' !in SHEET && SHEET != [] && SHEET[0] == 'x'
  {
  }

  lemma DeclarationIsMark(encoding: string, standalone: bool) returns (m: Mark)
    requires Unended(encoding)
    ensures IsMark(m) && MarkText(m) == Declaration(encoding, standalone)
  {
    hide EndsFirst, XML;
    Starts();
    var yes := if standalone then " standalone='yes'" else "";
    var p := XML + (encoding + ("'" + (yes + " ")));
    assert " ?>\n" == " " + "?>" + "\n";
    Around("<?", XML, encoding, "'", yes, " ", "?>", "\n");
    UnendedBetween(XML, encoding, "'" + (yes + " ")) by { assert '?' !in yes; }
    UnendedEndsFirst(p);
    m := Instruction(p, "\n");
  }

  lemma StyleSheetIsMark(href: string) returns (m: Mark)
    requires Unended(href)
    ensures IsMark(m) && MarkText(m) == StyleSheet(href)
  {
    hide EndsFirst, SHEET;
    Starts();
    var p := SHEET + (href + "\"");
    assert "\"?>\n" == "\"" + "?>" + "\n";
    Around("<?", SHEET, href, "\"", "", "", "?>", "\n");
    UnendedBetween(SHEET, href, "\"");
    UnendedEndsFirst(p);
    m := Instruction(p, "\n");
  }

  lemma OneMark(a: Mark)
    ensures MarksText([a]) == MarkText(a)
  {
    assert [a][1..] == [];
  }

  lemma TwoMarks(a: Mark, b: Mark)
    ensures MarksText([a, b]) == MarkText(a) + MarkText(b)
  {
    assert [a, b][1..] == [b];
    OneMark(b);
  }

  /** Nothing is left of the declarations, so comparing documents compares their trees. */
  lemma DocumentIsItsTree(encoding: string, standalone: bool, styleSheet: string, e: Element)
    requires Unended(encoding) && Unended(styleSheet) && WellNamed(e)
    ensures Stripped(DocumentText(encoding, standalone, styleSheet, e)) == Compact(e)
  {
    hide Print, Compact, WellNamed, MarkText, MarksText, IsMark, Declaration, StyleSheet, Stripped;
    var first := DeclarationIsMark(encoding, standalone);
    var second := StyleSheetIsMark(styleSheet);
    OneMark(first);
    TwoMarks(first, second);
    var marks := if styleSheet == [] then [first] else [first, second];
    var lead := Layout("", marks);
    assert "" + MarksText(marks) == MarksText(marks);
    assert MarkText(first) + "" == MarkText(first);
    PrologueIsIgnored(lead, e, "");
  }

  /** Text up to a character that is not in it. */
  lemma UntilUnique(a: string, x: string, b: string, y: string, c: char)
    requires c !in a && c !in b && a + ([c] + x) == b + ([c] + y)
    ensures a == b && x == y
  {
    var s := a + ([c] + x);
    assert s[|a|] == c && s[|b|] == c;
    assert forall i :: 0 <= i < |a| ==> s[i] == a[i];
    assert forall i :: 0 <= i < |b| ==> s[i] == b[i];
    assert |a| == |b|;
    assert a == s[..|a|] && b == s[..|b|];
    assert x == s[|a| + 1..];
  }

  lemma SameRest(a: string, standalone: bool, x: string, standalone': bool, y: string)
    requires var yes, yes' := if standalone then " standalone='yes'" else "", if standalone' then " standalone='yes'" else "";
      a + (yes + (" ?>\n" + x)) == a + (yes' + (" ?>\n" + y))
    ensures standalone == standalone' && x == y
  {
    var yes, yes' := if standalone then " standalone='yes'" else "", if standalone' then " standalone='yes'" else "";
    var r, r' := yes + (" ?>\n" + x), yes' + (" ?>\n" + y);
    SameTail(a, r, r');
    assert r[1] == if standalone then 's' else '?';
    assert r'[1] == if standalone' then 's' else '?';
    SameTail(yes, " ?>\n" + x, " ?>\n" + y);
    SameTail(" ?>\n", x, y);
  }

  lemma TreeStart(e: Element)
    requires IsName(e.name)
    ensures |Print(e, "")| > 1 && Print(e, "")[0] == '<' && Print(e, "")[1] != '?'
  {
    hide Inner, Print, EndTag, StartTag;
    PrintShape(e, "");
    var more := Inner(e, "") + (EndTag(e) + "\n");
    TagStart(e);
    assert Print(e, "") == StartTag(e) + more;
    assert Print(e, "")[0] == StartTag(e)[0] && Print(e, "")[1] == StartTag(e)[1];
  }

  lemma TagStart(e: Element)
    requires IsName(e.name)
    ensures |StartTag(e)| > 1 && StartTag(e)[0] == '<' && StartTag(e)[1] != '?'
  {
    hide AttributesText;
    AttributesStart(e.attributes, "");
    var a := AttributesText(e.attributes) + (">" + "");
    assert StartTag(e) == "<" + (e.name + a);
    assert (e.name + a)[0] == if e.name == [] then a[0] else e.name[0];
  }

  lemma SheetStart(href: string, x: string)
    ensures var r := StyleSheet(href) + x; |r| > 1 && r[0] == '<' && r[1] == '?'
    ensures StyleSheet(href) + x == ("<?" + SHEET) + (href + (['"'] + ("?>\n" + x)))
  {
    hide SHEET;
    assert "\"?>\n" == ['"'] + "?>\n";
  }

  lemma SheetsUnique(href: string, e: Element, href': string, e': Element)
    requires '"' !in href && '"' !in href' && IsName(e.name) && IsName(e'.name)
    requires (if href == [] then "" else StyleSheet(href)) + Print(e, "")
          == (if href' == [] then "" else StyleSheet(href')) + Print(e', "")
    ensures href == href' && Print(e, "") == Print(e', "")
  {
    hide Print, StyleSheet, SHEET, IsName;
    var t, t' := Print(e, ""), Print(e', "");
    TreeStart(e);
    TreeStart(e');
    SheetStart(href, t);
    SheetStart(href', t');
    assert "" + t == t && "" + t' == t';
    if href != [] && href' != [] {
      SameTail("<?" + SHEET, href + (['"'] + ("?>\n" + t)), href' + (['"'] + ("?>\n" + t')));
      UntilUnique(href, "?>\n" + t, href', "?>\n" + t', '"');
      SameTail("?>\n", t, t');
    }
  }

  lemma DeclarationParts(encoding: string, standalone: bool, x: string)
    ensures var yes := if standalone then " standalone='yes'" else "";
      Declaration(encoding, standalone) + x == ("<?" + XML) + (encoding + (['\''] + (yes + (" ?>\n" + x))))
  {
    hide XML;
    var yes := if standalone then " standalone='yes'" else "";
    assert "'" == ['\''];
  }

  /** A document tells its encoding, its style sheet, whether it stands alone, and its tree
      up to spaces around contents. */
  lemma DocumentIsUnique(encoding: string, standalone: bool, sheet: string, e: Element,
                         encoding': string, standalone': bool, sheet': string, e': Element)
    requires '\'' !in encoding && '\'' !in encoding' && '"' !in sheet && '"' !in sheet'
    requires Taggable(e) && Taggable(e')
    requires DocumentText(encoding, standalone, sheet, e) == DocumentText(encoding', standalone', sheet', e')
    ensures encoding == encoding' && standalone == standalone' && sheet == sheet' && Normal(e) == Normal(e')
  {
    hide Print, Declaration, StyleSheet, XML, Normal, Stripped;
    var x := (if sheet == [] then "" else StyleSheet(sheet)) + Print(e, "");
    var x' := (if sheet' == [] then "" else StyleSheet(sheet')) + Print(e', "");
    var yes, yes' := if standalone then " standalone='yes'" else "", if standalone' then " standalone='yes'" else "";
    assert DocumentText(encoding, standalone, sheet, e) == Declaration(encoding, standalone) + x;
    assert DocumentText(encoding', standalone', sheet', e') == Declaration(encoding', standalone') + x';
    DeclarationParts(encoding, standalone, x);
    DeclarationParts(encoding', standalone', x');
    var r, r' := yes + (" ?>\n" + x), yes' + (" ?>\n" + x');
    SameTail("<?" + XML, encoding + (['\''] + r), encoding' + (['\''] + r'));
    UntilUnique(encoding, r, encoding', r', '\'');
    assert "" + r == r && "" + r' == r';
    SameRest("", standalone, x, standalone', x');
    SheetsUnique(sheet, e, sheet', e');
    ComparisonIsExact(e, e', "", "");
  }
}
