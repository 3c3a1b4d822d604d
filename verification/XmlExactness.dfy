/** Comparing stripped texts compares trees: two printed trees strip to the same
    text exactly when they differ in nothing but spaces around contents. */
module XmlExactness {
  import opened XmlPrinter
  import opened XmlScanner
  import opened XmlRoundTrip

  /** No element name looks like the start of an end tag. */
  ghost predicate Taggable(e: Element) {
    && WellNamed(e) && !("/" <= e.name)
    && forall i :: 0 <= i < |e.children| ==> Taggable(e.children[i])
  }

  /** The tree with every content trimmed. */
  function Normal(e: Element): Element
    decreases e, 0
  {
    Element(e.name, Trim(e.content), e.attributes, NormalAll(e.children))
  }

  function NormalAll(es: seq<Element>): seq<Element>
    decreases es, |es|
  {
    if es == [] then [] else [Normal(es[0])] + NormalAll(es[1..])
  }

  // ---------- Trimming and escaping commute ----------

  lemma SpaceEscape(c: char)
    ensures IsSpace(c) ==> EscapeChar(c) == [c]
    ensures !IsSpace(c) ==> Clear(Name, EscapeChar(c)) && !IsSpace(EscapeChar(c)[0])
    ensures !IsSpace(c) ==> !IsSpace(EscapeChar(c)[|EscapeChar(c)| - 1])
  {
  }

  lemma {:induction false} LeadEscape(s: string)
    ensures Len(Blank, Escape(s)) == Len(Blank, s)
    ensures Escape(s)[Len(Blank, s)..] == Escape(s[Len(Blank, s)..])
  {
    if s != [] {
      SpaceEscape(s[0]);
      if IsSpace(s[0]) {
        LeadEscape(s[1..]);
        assert Escape(s)[1..] == Escape(s[1..]);
        var n := Len(Blank, s[1..]);
        assert Escape(s)[1 + n..] == Escape(s)[1..][n..];
        assert s[1 + n..] == s[1..][n..];
      } else {
        assert Escape(s)[0] == EscapeChar(s[0])[0];
        assert Escape(s)[0..] == Escape(s) && s[0..] == s;
      }
    }
  }

  lemma {:induction false} EndEscape(s: string)
    ensures TrimEnd(Escape(s)) == Escape(TrimEnd(s))
    decreases |s|
  {
    if s != [] {
      var n, c := |s| - 1, s[|s| - 1];
      assert s == s[..n] + [c];
      EscapeAppend(s[..n], c);
      SpaceEscape(c);
      if IsSpace(c) && n > 0 {
        EndEscape(s[..n]);
        assert Escape(s)[..|Escape(s)| - 1] == Escape(s[..n]);
      } else if n == 0 {
        assert s[..n] == [];
      }
    }
  }

  lemma TrimEscape(s: string)
    ensures Trim(Escape(s)) == Escape(Trim(s))
  {
    LeadEscape(s);
    EndEscape(s[Len(Blank, s)..]);
  }

  lemma EscapeInjective(s: string, t: string)
    requires Escape(s) == Escape(t)
    ensures s == t
  {
    EscapeRoundTrip(s);
    EscapeRoundTrip(t);
  }

  // ---------- The compact form is read in one way only ----------

  lemma SplitUnique(t: Token, a: string, b: string, c: string, d: string)
    requires a + b == c + d && Clear(t, a) && Clear(t, c)
    requires b != [] && Stops(t, b[0]) && d != [] && Stops(t, d[0])
    ensures a == c && b == d
  {
    RunOf(t, a, b, "");
    RunOf(t, c, d, "");
    assert a == (a + b)[..|a|] && b == (a + b)[|a|..];
    assert c == (c + d)[..|c|] && d == (c + d)[|c|..];
  }

  lemma SameTail(p: string, a: string, b: string)
    requires p + a == p + b
    ensures a == b
  {
    assert a == (p + a)[|p|..];
  }

  lemma AttributeUnique(a: Attribute, x: string, b: Attribute, y: string)
    requires Clear(AttributeName, a.name) && Clear(AttributeName, b.name)
    requires AttributeText(a) + x == AttributeText(b) + y
    ensures a == b && x == y
  {
    hide Escape;
    var v, w := Escape(a.value), Escape(b.value);
    var p, q := v + ("\"" + x), w + ("\"" + y);
    assert AttributeText(a) + x == a.name + ("=\"" + p);
    assert AttributeText(b) + y == b.name + ("=\"" + q);
    SplitUnique(AttributeName, a.name, "=\"" + p, b.name, "=\"" + q);
    SameTail("=\"", p, q);
    EscapedIsClear(a.value);
    EscapedIsClear(b.value);
    SplitUnique(Quoted, v, "\"" + x, w, "\"" + y);
    SameTail("\"", x, y);
    EscapeInjective(a.value, b.value);
  }

  lemma AttributesStart(s: seq<Attribute>, x: string)
    ensures var r := AttributesText(s) + (">" + x); r[0] == if s == [] then '>' else ' '
  {
  }

  lemma {:induction false} AttributesUnique(s: seq<Attribute>, x: string, t: seq<Attribute>, y: string)
    requires forall i :: 0 <= i < |s| ==> Clear(AttributeName, s[i].name)
    requires forall i :: 0 <= i < |t| ==> Clear(AttributeName, t[i].name)
    requires AttributesText(s) + (">" + x) == AttributesText(t) + (">" + y)
    ensures s == t && x == y
  {
    hide AttributeText;
    AttributesStart(s, x);
    AttributesStart(t, y);
    if s == [] {
      assert AttributesText(s) + (">" + x) == ">" + x;
      assert AttributesText(t) + (">" + y) == ">" + y;
      SameTail(">", x, y);
    } else {
      var p, q := AttributesText(s[1..]) + (">" + x), AttributesText(t[1..]) + (">" + y);
      assert AttributesText(s) + (">" + x) == " " + (AttributeText(s[0]) + p);
      assert AttributesText(t) + (">" + y) == " " + (AttributeText(t[0]) + q);
      SameTail(" ", AttributeText(s[0]) + p, AttributeText(t[0]) + q);
      AttributeUnique(s[0], p, t[0], q);
      AttributesUnique(s[1..], x, t[1..], y);
    }
  }

  lemma StartTagUnique(d: Element, x: string, e: Element, y: string)
    requires WellNamed(d) && WellNamed(e) && StartTag(d) + x == StartTag(e) + y
    ensures d.name == e.name && d.attributes == e.attributes && x == y
  {
    hide AttributesText;
    var a, b := AttributesText(d.attributes) + (">" + x), AttributesText(e.attributes) + (">" + y);
    TagText("<", d.name, AttributesText(d.attributes), ">", x);
    TagText("<", e.name, AttributesText(e.attributes), ">", y);
    SameTail("<", d.name + a, e.name + b);
    AttributesStart(d.attributes, x);
    AttributesStart(e.attributes, y);
    SplitUnique(Name, d.name, a, e.name, b);
    AttributesUnique(d.attributes, x, e.attributes, y);
  }

  /** A start tag never looks like an end tag. */
  lemma CompactStart(e: Element, x: string)
    requires Taggable(e)
    ensures var r := Compact(e) + x; |r| > 1 && r[0] == '<' && r[1] != '/'
  {
    hide CompactAll, Trim, Escape;
    AttributesStart(e.attributes, "");
    var a := AttributesText(e.attributes) + (">" + "");
    assert StartTag(e) == "<" + (e.name + a);
    assert (e.name + a)[0] == if e.name == [] then a[0] else e.name[0];
    assert Compact(e)[0] == StartTag(e)[0] && Compact(e)[1] == StartTag(e)[1];
  }

  lemma ContentStart(w: string, close: string)
    requires Clear(Content, w) && "</" <= close
    ensures var r := w + close; |r| > 1 && !(r[0] == '<' && r[1] != '/')
  {
    assert w != [] ==> (w + close)[0] == w[0];
    assert w == [] ==> w + close == close;
  }

  lemma TrimmedIsClear(s: string)
    ensures Clear(Content, Trim(Escape(s)))
  {
    TrimEscape(s);
    EscapedIsClear(Trim(s));
  }

  lemma {:induction false} CompactUnique(d: Element, x: string, e: Element, y: string)
    requires Taggable(d) && Taggable(e) && Compact(d) + x == Compact(e) + y
    ensures Normal(d) == Normal(e) && x == y
    decreases d, 0
  {
    hide StartTag, CompactAll, Trim, Escape;
    var v, w := Trim(Escape(d.content)), Trim(Escape(e.content));
    var p, q := v + (EndTag(d) + x), w + (EndTag(e) + y);
    Split4(StartTag(d), CompactAll(d.children), v, EndTag(d), x);
    Split4(StartTag(e), CompactAll(e.children), w, EndTag(e), y);
    StartTagUnique(d, CompactAll(d.children) + p, e, CompactAll(e.children) + q);
    TrimmedIsClear(d.content);
    TrimmedIsClear(e.content);
    CompactAllUnique(d.children, v, EndTag(d) + x, e.children, w, EndTag(e) + y);
    assert (EndTag(d) + x)[0] == '<' && (EndTag(e) + y)[0] == '<';
    SplitUnique(Content, v, EndTag(d) + x, w, EndTag(e) + y);
    SameTail(EndTag(d), x, y);
    TrimEscape(d.content);
    TrimEscape(e.content);
    EscapeInjective(Trim(d.content), Trim(e.content));
  }

  lemma Split4(a: string, b: string, c: string, d: string, x: string)
    ensures a + b + c + d + x == a + (b + (c + (d + x)))
  {
  }

  lemma {:induction false} CompactAllUnique(ds: seq<Element>, v: string, x: string,
                                            es: seq<Element>, w: string, y: string)
    requires forall i :: 0 <= i < |ds| ==> Taggable(ds[i])
    requires forall i :: 0 <= i < |es| ==> Taggable(es[i])
    requires Clear(Content, v) && Clear(Content, w) && "</" <= x && "</" <= y
    requires CompactAll(ds) + (v + x) == CompactAll(es) + (w + y)
    ensures NormalAll(ds) == NormalAll(es) && v + x == w + y
    decreases ds, |ds|
  {
    hide Compact, Normal, Taggable;
    ContentStart(v, x);
    ContentStart(w, y);
    assert ds == [] ==> CompactAll(ds) + (v + x) == v + x;
    assert es == [] ==> CompactAll(es) + (w + y) == w + y;
    if ds != [] { FirstChild(ds, v + x); }
    if es != [] { FirstChild(es, w + y); }
    if ds != [] && es != [] {
      var p, q := CompactAll(ds[1..]) + (v + x), CompactAll(es[1..]) + (w + y);
      CompactUnique(ds[0], p, es[0], q);
      CompactAllUnique(ds[1..], v, x, es[1..], w, y);
    }
  }

  lemma FirstChild(es: seq<Element>, r: string)
    requires es != [] && Taggable(es[0])
    ensures CompactAll(es) + r == Compact(es[0]) + (CompactAll(es[1..]) + r)
    ensures var t := CompactAll(es) + r; |t| > 1 && t[0] == '<' && t[1] != '/'
  {
    hide Compact, Taggable;
    CompactStart(es[0], CompactAll(es[1..]) + r);
    assert CompactAll(es) + r == Compact(es[0]) + (CompactAll(es[1..]) + r);
  }

  lemma {:induction false} CompactOfNormal(d: Element, e: Element)
    requires Normal(d) == Normal(e)
    ensures Compact(d) == Compact(e)
    decreases d, 0
  {
    hide Trim, Escape, AttributesText;
    TrimEscape(d.content);
    TrimEscape(e.content);
    CompactAllOfNormal(d.children, e.children);
  }

  lemma {:induction false} CompactAllOfNormal(ds: seq<Element>, es: seq<Element>)
    requires NormalAll(ds) == NormalAll(es)
    ensures CompactAll(ds) == CompactAll(es)
    decreases ds, |ds|
  {
    hide Normal, Compact;
    if ds != [] {
      assert NormalAll(ds)[0] == Normal(ds[0]) && NormalAll(ds)[1..] == NormalAll(ds[1..]);
      assert es != [];
      assert NormalAll(es)[0] == Normal(es[0]) && NormalAll(es)[1..] == NormalAll(es[1..]);
      CompactOfNormal(ds[0], es[0]);
      CompactAllOfNormal(ds[1..], es[1..]);
    }
  }

  /** The comparison of two printed trees, whatever their indentations, succeeds
      exactly when the trees are equal up to spaces around contents. */
  lemma ComparisonIsExact(d: Element, e: Element, indent: string, indent': string)
    requires Taggable(d) && Taggable(e) && Clear(Blank, indent) && Clear(Blank, indent')
    ensures Stripped(Print(d, indent)) == Stripped(Print(e, indent')) <==> Normal(d) == Normal(e)
  {
    hide Stripped, Print, Compact, Normal;
    ScannerCancelsPrinter(d, indent);
    ScannerCancelsPrinter(e, indent');
    if Compact(d) == Compact(e) {
      CompactUnique(d, "", e, "");
    }
    if Normal(d) == Normal(e) {
      CompactOfNormal(d, e);
    }
  }
}
