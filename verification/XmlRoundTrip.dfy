/** The scanner cancels the printer's layout: what is left of a printed tree is its
    compact form. */
module XmlRoundTrip {
  import opened XmlPrinter
  import opened XmlScanner

  // ---------- The compact form ----------

  ghost predicate Clear(t: Token, s: string) {
    forall i :: 0 <= i < |s| ==> !Stops(t, s[i])
  }

  /** Names that the scanner reads as one element name. */
  ghost predicate IsName(s: string) {
    Clear(Name, s) && !("?" <= s) && !("!--" <= s)
  }

  ghost predicate WellNamed(e: Element) {
    && IsName(e.name)
    && (forall i :: 0 <= i < |e.attributes| ==> Clear(AttributeName, e.attributes[i].name))
    && forall i :: 0 <= i < |e.children| ==> WellNamed(e.children[i])
  }

  /** Without the spaces at either end. */
  function Trim(s: string): string {
    TrimEnd(s[Len(Blank, s)..])
  }

  function StartTag(e: Element): string {
    "<" + e.name + AttributesText(e.attributes) + ">"
  }

  function EndTag(e: Element): string {
    "</" + e.name + ">"
  }

  /** Tags, children in order, then the trimmed content, with no layout at all. */
  function Compact(e: Element): string
    decreases e, 0
  {
    StartTag(e) + CompactAll(e.children) + Trim(Escape(e.content)) + EndTag(e)
  }

  function CompactAll(es: seq<Element>): string
    decreases es, |es|
  {
    if es == [] then [] else Compact(es[0]) + CompactAll(es[1..])
  }

  // ---------- Runs and layout ----------

  lemma RunOf(t: Token, a: string, b: string, out: string)
    requires Clear(t, a) && (b == [] || Stops(t, b[0]))
    ensures Len(t, a + b) == |a| && Copy(t, Cursor(a + b, out)) == Cursor(b, out + a)
    ensures t == Blank ==> Skip(Cursor(a + b, out)) == Cursor(b, out)
  {
    LenIs(t, a + b, |a|);
    assert (a + b)[..|a|] == a && (a + b)[|a|..] == b;
  }

  lemma {:induction false} SkipLead(lead: string, r: string, out: string)
    requires Clear(Blank, lead)
    ensures Skip(Cursor(lead + r, out)) == Skip(Cursor(r, out))
  {
    if lead == [] {
      assert lead + r == r;
    } else {
      SkipLead(lead[1..], r, out);
      assert (lead + r)[1..] == lead[1..] + r;
      var n := Len(Blank, lead[1..] + r);
      assert (lead + r)[1 + n..] == (lead[1..] + r)[n..];
    }
  }

  /** Layout before the rest of a text makes no difference. */
  lemma StripLead(lead: string, r: string, out: string)
    requires Clear(Blank, lead) && r != []
    ensures Strip(Cursor(lead + r, out)) == Strip(Cursor(r, out))
  {
    SkipLead(lead, r, out);
    assert Turn(Cursor(lead + r, out)) == Turn(Cursor(r, out));
  }

  lemma {:induction false} TrimEndAfter(a: string, t: string)
    requires t != [] && !IsSpace(t[0])
    ensures TrimEnd(a + t) == a + TrimEnd(t)
    decreases |t|
  {
    if IsSpace(t[|t| - 1]) {
      assert (a + t)[..|a + t| - 1] == a + t[..|t| - 1];
      TrimEndAfter(a, t[..|t| - 1]);
    }
  }

  lemma {:induction false} TrimEndSpaces(t: string, spaces: string)
    requires t != [] && !IsSpace(t[0]) && Clear(Blank, spaces)
    ensures TrimEnd(t + spaces) == TrimEnd(t)
    decreases |spaces|
  {
    if spaces == [] {
      assert t + spaces == t;
    } else {
      assert (t + spaces)[..|t + spaces| - 1] == t + spaces[..|spaces| - 1];
      TrimEndSpaces(t, spaces[..|spaces| - 1]);
    }
  }

  lemma {:induction false} BlankPrefix(s: string)
    ensures Clear(Blank, s[..Len(Blank, s)])
    ensures var n := Len(Blank, s); n < |s| ==> !IsSpace(s[n])
  {
    if s != [] && IsSpace(s[0]) {
      BlankPrefix(s[1..]);
      var n := Len(Blank, s[1..]);
      assert s[..1 + n] == [s[0]] + s[1..][..n];
    }
  }

  // ---------- Reading tags ----------

  lemma ReadName(name: string, more: string, out: string)
    requires Clear(AttributeName, name)
    ensures var c := Cursor(" " + (name + ("=\"" + more)), out);
      && !(">" <= Skip(c).rest)
      && CopyAttribute(c) == CopyValue(Cursor("\"" + more, out + " " + name + "="))
  {
    hide CopyValue, Len, Copy, Skip;
    var v := "=\"" + more;
    var r := name + v;
    assert r[0] == if name == [] then '=' else name[0];
    RunOf(Blank, " ", r, out);
    RunOf(AttributeName, name, v, out + " ");
    RunOf(Blank, "", v, out + " " + name);
    assert "" + v == v;
    assert CopyNext(Cursor(v, out + " " + name)) == Cursor("\"" + more, out + " " + name + "=") by {
      assert v[1..] == "\"" + more;
    }
  }

  lemma ReadValue(value: string, more: string, out: string)
    requires Clear(Quoted, value)
    ensures CopyValue(Cursor("\"" + (value + ("\"" + more)), out)) == Cursor(more, out + "\"" + value + "\"")
  {
    hide Len, Copy, Skip;
    var r := value + ("\"" + more);
    RunOf(Blank, "", "\"" + r, out);
    RunOf(Quoted, "", "\"" + r, out);
    assert "" + ("\"" + r) == "\"" + r && out + "" == out;
    assert ("\"" + r)[1..] == r;
    assert CopyThroughQuote(Cursor("\"" + r, out)) == Cursor(r, out + "\"");
    RunOf(Quoted, value, "\"" + more, out + "\"");
    assert ("\"" + more)[1..] == more;
  }

  lemma EscapedIsClear(s: string)
    ensures Clear(Quoted, Escape(s)) && Clear(Content, Escape(s))
  {
    forall i | 0 <= i < |Escape(s)| ensures Escape(s)[i] != '"' && Escape(s)[i] != '<' {
      EscapeHidesMarkup(s, Escape(s)[i]);
    }
  }

  lemma ReadAttribute(a: Attribute, more: string, out: string)
    requires Clear(AttributeName, a.name)
    ensures var c := Cursor(" " + AttributeText(a) + more, out);
      && !(">" <= Skip(c).rest)
      && CopyAttribute(c) == Cursor(more, out + (" " + AttributeText(a)))
  {
    hide Skip, CopyAttribute, CopyValue, Escape;
    var v := Escape(a.value);
    EscapedIsClear(a.value);
    assert " " + AttributeText(a) + more == " " + (a.name + ("=\"" + (v + ("\"" + more))));
    ReadName(a.name, v + ("\"" + more), out);
    ReadValue(v, more, out + " " + a.name + "=");
    assert out + " " + a.name + "=" + "\"" + v + "\"" == out + (" " + AttributeText(a));
  }

  lemma {:induction false} ReadAttributes(s: seq<Attribute>, tail: string, out: string)
    requires forall i :: 0 <= i < |s| ==> Clear(AttributeName, s[i].name)
    ensures CopyAttributes(Cursor(AttributesText(s) + (">" + tail), out))
         == Cursor(tail, out + (AttributesText(s) + ">"))
  {
    hide CopyAttribute, AttributeText, Copy, Skip;
    if s == [] {
      ReadClose(tail, out);
      assert AttributesText(s) + (">" + tail) == ">" + tail;
      assert AttributesText(s) + ">" == ">";
    } else {
      var one, more := " " + AttributeText(s[0]), AttributesText(s[1..]) + (">" + tail);
      ReadAttribute(s[0], more, out);
      Join3("", one, AttributesText(s[1..]), ">" + tail);
      assert AttributesText(s) + (">" + tail) == one + more;
      ReadAttributes(s[1..], tail, out + one);
      Join3(out, one, AttributesText(s[1..]), ">");
    }
  }

  lemma ReadClose(tail: string, out: string)
    ensures CopyAttributes(Cursor(">" + tail, out)) == Cursor(tail, out + ">")
  {
    hide CopyAttribute;
    RunOf(Blank, "", ">" + tail, out);
    assert "" + (">" + tail) == ">" + tail;
    assert (">" + tail)[1..] == tail;
  }

  lemma ReadElementName(name: string, s: seq<Attribute>, tail: string, out: string)
    requires IsName(name)
    ensures var r := "<" + (name + (AttributesText(s) + (">" + tail)));
      && !("<?" <= r) && !("<!--" <= r)
      && Copy(Name, Cursor(r, out)) == Cursor(AttributesText(s) + (">" + tail), out + ("<" + name))
  {
    hide Copy, AttributeText;
    var b := AttributesText(s) + (">" + tail);
    assert b[0] == ' ' || b[0] == '>';
    ReadTagName(name, b, out);
  }

  lemma ReadTagName(name: string, b: string, out: string)
    requires IsName(name) && b != [] && (IsSpace(b[0]) || b[0] == '>')
    ensures var r := "<" + (name + b);
      && !("<?" <= r) && !("<!--" <= r)
      && Copy(Name, Cursor(r, out)) == Cursor(b, out + ("<" + name))
  {
    hide Len, Copy;
    var r := "<" + (name + b);
    assert r == ("<" + name) + b;
    RunOf(Name, "<" + name, b, out);
    assert r[1] == if name == [] then b[0] else name[0];
    NotComment(name, b);
  }

  lemma StartsLike(s: string, a: char, b: char, c: char)
    ensures [a, b, c] <= s <==> |s| >= 3 && s[0] == a && s[1] == b && s[2] == c
  {
  }

  lemma NotComment(name: string, b: string)
    requires b != [] && (IsSpace(b[0]) || b[0] == '>') && !("!--" <= name)
    ensures !("<!--" <= "<" + (name + b))
  {
    var t := name + b;
    StartsLike(name, '!', '-', '-');
    StartsLike(t, '!', '-', '-');
    assert t[|name|] == b[0];
    assert forall i :: 0 <= i < |name| ==> t[i] == name[i];
    assert !("!--" <= t);
    assert ("<" + t)[1..] == t;
    assert "<!--"[1..] == "!--";
  }

  lemma TurnIsElement(c: Cursor)
    requires c.rest != [] && c.rest[0] == '<' && !("<?" <= c.rest) && !("<!--" <= c.rest)
    ensures Turn(c) == CopyAttributes(Copy(Name, c))
  {
    hide CopyAttributes, Copy, CopyContent, SkipThrough;
    assert Skip(c) == c by { assert c.rest[0..] == c.rest; }
    assert "<" <= c.rest;
  }

  lemma TurnIsContent(c: Cursor)
    requires c.rest != [] && c.rest[0] != '<' && !IsSpace(c.rest[0])
    ensures Turn(c) == CopyContent(c)
  {
    hide CopyElement, CopyContent, SkipThrough;
    assert Skip(c) == c by { assert c.rest[0..] == c.rest; }
  }

  lemma TurnAtTag(name: string, s: seq<Attribute>, tail: string, out: string)
    requires IsName(name)
    requires forall i :: 0 <= i < |s| ==> Clear(AttributeName, s[i].name)
    ensures Turn(Cursor("<" + (name + (AttributesText(s) + (">" + tail))), out))
         == Cursor(tail, out + ("<" + name) + (AttributesText(s) + ">"))
  {
    hide Turn, CopyAttributes, AttributesText, Copy, IsName, Clear;
    var r := "<" + (name + (AttributesText(s) + (">" + tail)));
    ReadElementName(name, s, tail, out);
    ReadAttributes(s, tail, out + ("<" + name));
    assert r[0] == '<';
    TurnIsElement(Cursor(r, out));
  }

  /** A tag is copied as it is. */
  lemma StripTag(name: string, s: seq<Attribute>, tail: string, out: string)
    requires IsName(name)
    requires forall i :: 0 <= i < |s| ==> Clear(AttributeName, s[i].name)
    ensures var tag := "<" + name + AttributesText(s) + ">";
      Strip(Cursor(tag + tail, out)) == Strip(Cursor(tail, out + tag))
  {
    hide Turn, AttributesText;
    TurnAtTag(name, s, tail, out);
    TagText("<", name, AttributesText(s), ">", tail);
    assert out + ("<" + name) + (AttributesText(s) + ">")
        == out + ("<" + name + AttributesText(s) + ">") by {
      Join3(out, "<" + name, AttributesText(s), ">");
    }
  }

  lemma TagText(a: string, b: string, c: string, d: string, e: string)
    ensures a + b + c + d + e == a + (b + (c + (d + e)))
  {
  }

  lemma StripEndTag(e: Element, tail: string, out: string)
    requires IsName(e.name)
    ensures Strip(Cursor(EndTag(e) + tail, out)) == Strip(Cursor(tail, out + EndTag(e)))
  {
    hide Strip;
    var name := "/" + e.name;
    assert name[0] == '/';
    assert forall i :: 0 < i < |name| ==> name[i] == e.name[i - 1];
    StripTag(name, [], tail, out);
    assert "<" + ("/" + e.name) + AttributesText([]) + ">" == EndTag(e);
  }

  // ---------- Reading content ----------

  /** Content is copied without the spaces around it. */
  lemma StripContent(before: string, t: string, after: string, tail: string, out: string)
    requires Clear(Blank, before) && Clear(Blank, after) && Clear(Content, t) && "<" <= tail
    ensures Strip(Cursor(before + (t + (after + tail)), out)) == Strip(Cursor(tail, out + Trim(t)))
  {
    hide Strip, CopyElement, SkipThrough;
    BlankPrefix(t);
    var n := Len(Blank, t);
    var core := t[n..];
    assert t == t[..n] + core;
    if core == [] {
      assert before + (t + (after + tail)) == (before + t + after) + tail;
      StripLead(before + t + after, tail, out);
      assert out + Trim(t) == out;
    } else {
      var r := core + after + tail;
      assert before + (t + (after + tail)) == (before + t[..n]) + r;
      StripLead(before + t[..n], r, out);
      assert forall i :: 0 <= i < |core| ==> core[i] == t[n + i];
      TurnAtContent(core, after, tail, out);
    }
  }

  lemma TurnAtContent(core: string, after: string, tail: string, out: string)
    requires core != [] && !IsSpace(core[0])
    requires Clear(Blank, after) && Clear(Content, core) && "<" <= tail
    ensures Strip(Cursor(core + after + tail, out)) == Strip(Cursor(tail, out + TrimEnd(core)))
  {
    hide Turn, Len, TrimEnd, Copy;
    var r := core + after + tail;
    assert r[0] == core[0];
    TurnIsContent(Cursor(r, out));
    assert Clear(Content, core + after);
    RunOf(Content, core + after, tail, out);
    assert TrimEnd(out + (core + after)) == out + TrimEnd(core) by {
      TrimEndAfter(out, core + after);
      TrimEndSpaces(core, after);
    }
    assert Turn(Cursor(r, out)) == Cursor(tail, out + TrimEnd(core));
  }

  // ---------- The scanner cancels the printer ----------

  /** What stands between the tags of a printed element. */
  function Inner(e: Element, indent: string): string {
    (if e.children == [] then [] else "\n" + PrintAll(e.children, indent + "  ") + indent)
    + (Escape(e.content) + if e.content == [] || e.children == [] then [] else "\n" + indent)
  }

  lemma PrintShape(e: Element, indent: string)
    ensures Print(e, indent) == indent + (StartTag(e) + (Inner(e, indent) + (EndTag(e) + "\n")))
  {
    hide Escape, PrintAll, AttributesText;
    var kids := if e.children == [] then [] else "\n" + PrintAll(e.children, indent + "  ") + indent;
    var words := Escape(e.content) + if e.content == [] || e.children == [] then [] else "\n" + indent;
    var head := indent + "<" + e.name + AttributesText(e.attributes) + ">";
    var body := if e.children == [] then head
                else head + "\n" + PrintAll(e.children, indent + "  ") + indent;
    var text := if e.content == [] then body
                else if e.children == [] then body + Escape(e.content)
                else body + Escape(e.content) + "\n" + indent;
    assert head == indent + StartTag(e) by {
      HeadText(indent, e.name, AttributesText(e.attributes));
    }
    assert body == head + kids by {
      Join3(head, "\n", PrintAll(e.children, indent + "  "), indent);
      assert head + [] == head;
    }
    assert text == body + words by {
      if e.content == [] {
        assert Escape(e.content) == [] by { EmptyEscape(); }
        assert body + [] == body;
      } else if e.children == [] {
        assert words == Escape(e.content);
      } else {
        Join3(body, Escape(e.content), "\n", indent);
      }
    }
    assert text + "</" + e.name + ">\n" == text + (EndTag(e) + "\n") by {
      TailText(text, e.name);
    }
    Regroup(indent, StartTag(e), kids, words, EndTag(e) + "\n");
  }

  lemma EmptyEscape()
    ensures Escape([]) == []
  {
  }

  lemma HeadText(indent: string, name: string, attributes: string)
    ensures indent + "<" + name + attributes + ">" == indent + ("<" + name + attributes + ">")
  {
  }

  lemma TailText(text: string, name: string)
    ensures text + "</" + name + ">\n" == text + ("</" + name + ">" + "\n")
  {
  }

  lemma Join3(a: string, b: string, c: string, d: string)
    ensures a + b + c + d == a + (b + c + d) == a + (b + (c + d))
  {
  }

  lemma Regroup(a: string, b: string, c: string, d: string, f: string)
    ensures a + b + c + d + f == a + (b + (c + d + f))
  {
  }

  lemma {:induction false} StripPrinted(e: Element, lead: string, indent: string, tail: string, out: string)
    requires WellNamed(e) && Clear(Blank, lead) && Clear(Blank, indent)
    ensures Strip(Cursor(lead + (Print(e, indent) + tail), out))
         == Strip(Cursor("\n" + tail, out + Compact(e)))
    decreases e, 0
  {
    hide Strip, Print, Inner, AttributesText, CompactAll, Trim, Escape;
    var close := EndTag(e) + ("\n" + tail);
    var inner := Inner(e, indent) + close;
    PrintShape(e, indent);
    assert lead + (Print(e, indent) + tail) == (lead + indent) + (StartTag(e) + inner);
    StripLead(lead + indent, StartTag(e) + inner, out);
    StripTag(e.name, e.attributes, inner, out);
    StripInner(e, indent, close, out + StartTag(e));
    var kids, words := CompactAll(e.children), Trim(Escape(e.content));
    StripEndTag(e, "\n" + tail, out + StartTag(e) + (kids + words));
    assert out + StartTag(e) + (kids + words) + EndTag(e) == out + Compact(e);
  }

  lemma {:induction false} StripInner(e: Element, indent: string, close: string, out: string)
    requires WellNamed(e) && Clear(Blank, indent) && "<" <= close
    ensures Strip(Cursor(Inner(e, indent) + close, out))
         == Strip(Cursor(close, out + (CompactAll(e.children) + Trim(Escape(e.content)))))
    decreases e.children, |e.children| + 1
  {
    hide Strip, Print, PrintAll, Trim, Escape, CompactAll, WellNamed;
    var text := Escape(e.content);
    var after := if e.content == [] || e.children == [] then [] else "\n" + indent;
    EscapedIsClear(e.content);
    WellNamedChildren(e);
    if e.children == [] {
      NoneCompact();
      assert Inner(e, indent) + close == "" + (text + (after + close));
      StripContent("", text, after, close, out);
      assert CompactAll(e.children) + Trim(text) == Trim(text);
    } else {
      var words := indent + (text + (after + close));
      InnerWithChildren(PrintAll(e.children, indent + "  "), indent, text, after, close);
      StripPrintedAll(e.children, "\n", indent + "  ", words, out);
      StripContent(indent, text, after, close, out + CompactAll(e.children));
      assert out + CompactAll(e.children) + Trim(text) == out + (CompactAll(e.children) + Trim(text));
    }
  }

  lemma InnerWithChildren(kids: string, indent: string, text: string, after: string, close: string)
    ensures ("\n" + kids + indent) + (text + after) + close == "\n" + (kids + (indent + (text + (after + close))))
  {
  }

  lemma WellNamedChildren(e: Element)
    requires WellNamed(e)
    ensures forall i :: 0 <= i < |e.children| ==> WellNamed(e.children[i])
  {
  }

  lemma NoneCompact()
    ensures CompactAll([]) == []
  {
  }

  lemma {:induction false} StripPrintedAll(es: seq<Element>, lead: string, indent: string, tail: string, out: string)
    requires forall i :: 0 <= i < |es| ==> WellNamed(es[i])
    requires Clear(Blank, lead) && Clear(Blank, indent) && tail != []
    ensures Strip(Cursor(lead + (PrintAll(es, indent) + tail), out))
         == Strip(Cursor(tail, out + CompactAll(es)))
    decreases es, |es|
  {
    hide Strip, Print, Compact;
    if es == [] {
      assert PrintAll(es, indent) + tail == tail && out + CompactAll(es) == out;
      StripLead(lead, tail, out);
    } else {
      var more := PrintAll(es[1..], indent) + tail;
      assert PrintAll(es, indent) + tail == Print(es[0], indent) + more;
      StripPrinted(es[0], lead, indent, more, out);
      StripPrintedAll(es[1..], "\n", indent, tail, out + Compact(es[0]));
      assert out + Compact(es[0]) + CompactAll(es[1..]) == out + CompactAll(es);
    }
  }

  lemma CompactEnds(e: Element)
    ensures |Compact(e)| > 1 && Compact(e)[|Compact(e)| - 1] == '>'
  {
    hide Trim, AttributesText, CompactAll, Escape;
  }

  /** The scanner cancels the printer: whatever the indentation, what is left of a
      printed tree is its compact form. */
  lemma ScannerCancelsPrinter(e: Element, indent: string)
    requires WellNamed(e) && Clear(Blank, indent)
    ensures Stripped(Print(e, indent)) == Compact(e)
  {
    hide Print, Compact, Len, Copy, SkipThrough, CopyElement;
    StripPrinted(e, "", indent, "", "");
    assert "" + (Print(e, indent) + "") == Print(e, indent);
    assert "\n" + "" == "\n" && "" + Compact(e) == Compact(e);
    var c := Cursor("\n", Compact(e));
    RunOf(Blank, "\n", "", c.out);
    assert "\n" + "" == "\n";
    CopyEnd(Content, Cursor("", c.out));
    CompactEnds(e);
    assert Turn(c) == Cursor("", Compact(e));
  }
}
