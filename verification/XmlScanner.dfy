/** The cursor machine that strips layout from an XML text (XmlUniformiser).

    A cursor is the text still to be read and the text produced so far; each
    operation of the machine is a function from cursors to cursors, and the class
    at the end is the program, proved against those functions. */
module XmlScanner {

  datatype Cursor = Cursor(rest: string, out: string)

  /** The program compares a plain char with 33; plain char is signed, so the
      bytes from 128 up count as spaces as well. */
  predicate IsSpace(c: char) {
    c as int < 33 || c as int >= 128
  }

  /** The kinds of run the machine reads in one loop. */
  datatype Token = Blank | Name | AttributeName | Quoted | Content

  /** The characters at which such a run ends. */
  predicate Stops(t: Token, c: char) {
    match t
    case Blank => !IsSpace(c)
    case Name => IsSpace(c) || c == '>'
    case AttributeName => IsSpace(c) || c == '>' || c == '='
    case Quoted => c == '"'
    case Content => c == '<'
  }

  /** The length of the run at the start of `r`. */
  function Len(t: Token, r: string): (n: nat)
    ensures n <= |r|
  {
    if r == [] || Stops(t, r[0]) then 0 else 1 + Len(t, r[1..])
  }

  /** A run is the longest stretch without a stopping character. */
  lemma {:induction false} LenIs(t: Token, r: string, n: nat)
    requires n <= |r| && (n < |r| ==> Stops(t, r[n]))
    requires forall i :: 0 <= i < n ==> !Stops(t, r[i])
    ensures Len(t, r) == n
  {
    if n > 0 { LenIs(t, r[1..], n - 1); }
  }

  lemma LenStep(t: Token, text: string, i: nat)
    requires i < |text| && !Stops(t, text[i])
    ensures Len(t, text[i..]) == 1 + Len(t, text[i + 1..])
  {
    assert text[i..][1..] == text[i + 1..];
  }

  /** The first place where `mark` starts, or the length of the text. */
  function Find(mark: string, r: string): (n: nat)
    ensures n < |r| ==> n + |mark| <= |r|
    ensures n <= |r|
  {
    if r == [] || mark <= r then 0 else 1 + Find(mark, r[1..])
  }

  lemma {:induction false} FindIsFirst(mark: string, r: string, i: nat)
    requires mark != [] && i <= |r|
    ensures i < Find(mark, r) ==> !(mark <= r[i..])
    ensures i == Find(mark, r) ==> i == |r| || mark <= r[i..]
  {
    assert r[0..] == r;
    if r != [] && !(mark <= r) && i > 0 {
      assert r[1..][i - 1..] == r[i..];
      FindIsFirst(mark, r[1..], i - 1);
    }
  }

  lemma FindStep(mark: string, text: string, i: nat)
    requires i < |text| && !(mark <= text[i..])
    ensures Find(mark, text[i..]) == 1 + Find(mark, text[i + 1..])
  {
    assert text[i..][1..] == text[i + 1..];
  }

  // ---------- The operations ----------

  function Skip(c: Cursor): Cursor {
    c.(rest := c.rest[Len(Blank, c.rest)..])
  }

  function Copy(t: Token, c: Cursor): (r: Cursor)
    ensures |r.rest| <= |c.rest|
  {
    var n := Len(t, c.rest);
    Cursor(c.rest[n..], c.out + c.rest[..n])
  }

  function CopyNext(c: Cursor): (r: Cursor)
    ensures |r.rest| <= |c.rest|
  {
    if c.rest == [] then c else Cursor(c.rest[1..], c.out + [c.rest[0]])
  }

  function Emit(c: Cursor): Cursor {
    c.(out := c.out + " ")
  }

  /** Drops everything through `mark`, or everything if it does not occur. */
  function SkipThrough(mark: string, c: Cursor): (r: Cursor)
    ensures |r.rest| <= |c.rest|
    ensures mark != [] && c.rest != [] ==> |r.rest| < |c.rest|
  {
    var n := Find(mark, c.rest);
    if n < |c.rest| then c.(rest := c.rest[n + |mark|..]) else c.(rest := [])
  }

  function CopyThroughQuote(c: Cursor): (r: Cursor)
    ensures |r.rest| <= |c.rest|
  {
    CopyNext(Copy(Quoted, c))
  }

  function CopyValue(c: Cursor): (r: Cursor)
    ensures |r.rest| <= |c.rest|
  {
    CopyThroughQuote(CopyThroughQuote(Skip(c)))
  }

  predicate AtSpace(c: Cursor) {
    c.rest != [] && IsSpace(c.rest[0])
  }

  function NamedAttribute(c: Cursor): (r: Cursor)
    ensures |r.rest| <= |c.rest|
  {
    var named := Skip(Copy(AttributeName, c));
    if "=" <= named.rest then CopyValue(CopyNext(named)) else Emit(named)
  }

  /** One turn of the attribute loop that does not meet the closing bracket. */
  function CopyAttribute(c: Cursor): (r: Cursor)
    requires !(">" <= Skip(c).rest)
    ensures |r.rest| <= |c.rest|
    ensures c.rest != [] ==> |r.rest| < |c.rest|
  {
    NamedAttribute(if AtSpace(c) then Emit(Skip(c)) else Skip(c))
  }

  function CopyAttributes(c: Cursor): (r: Cursor)
    ensures |r.rest| <= |c.rest|
    decreases |c.rest|
  {
    if ">" <= Skip(c).rest then CopyNext(Skip(c))
    else
      var next := CopyAttribute(c);
      if next.rest == [] then next else CopyAttributes(next)
  }

  function CopyElement(c: Cursor): (r: Cursor)
    ensures |r.rest| <= |c.rest|
    ensures "<" <= c.rest ==> |r.rest| < |c.rest|
  {
    CopyAttributes(Copy(Name, c))
  }

  /** A plain char as the signed number it is. */
  function Signed(c: char): int {
    if c as int < 128 then c as int else c as int - 256
  }

  lemma SpaceIsSigned(c: char)
    requires c as int < 256
    ensures IsSpace(c) <==> Signed(c) < 33
  {
  }

  /** Removes spaces from the end, but never the first character. */
  function TrimEnd(s: string): string {
    if |s| > 1 && IsSpace(s[|s| - 1]) then TrimEnd(s[..|s| - 1]) else s
  }

  lemma {:induction false} TrimEndIs(s: string, n: nat)
    requires n <= |s| && (s != [] ==> n > 0) && (n > 1 ==> !IsSpace(s[n - 1]))
    requires forall i :: n <= i < |s| ==> IsSpace(s[i])
    ensures TrimEnd(s) == s[..n]
    decreases |s|
  {
    if n < |s| {
      var t := s[..|s| - 1];
      TrimEndIs(t, n);
      assert t[..n] == s[..n];
    } else {
      assert s[..n] == s;
    }
  }

  function CopyContent(c: Cursor): (r: Cursor)
    ensures |r.rest| <= |c.rest|
    ensures c.rest != [] && !("<" <= c.rest) ==> |r.rest| < |c.rest|
  {
    var copied := Copy(Content, c);
    copied.(out := TrimEnd(copied.out))
  }

  /** One turn of the outer loop. */
  function Turn(c: Cursor): (r: Cursor)
    ensures c.rest != [] ==> |r.rest| < |c.rest|
  {
    var start := Skip(c);
    if "<?" <= start.rest then SkipThrough("?>", start)
    else if "<!--" <= start.rest then SkipThrough("-->", start)
    else if "<" <= start.rest then CopyElement(start)
    else CopyContent(start)
  }

  /** The whole machine: every turn makes progress, so every text has an end. */
  function Strip(c: Cursor): string
    decreases |c.rest|
  {
    if c.rest == [] then c.out else Strip(Turn(c))
  }

  function Stripped(text: string): string {
    Strip(Cursor(text, []))
  }

  lemma SkipThroughStep(mark: string, text: string, i: nat, out: string)
    requires i < |text| && !(mark <= text[i..])
    ensures SkipThrough(mark, Cursor(text[i..], out)) == SkipThrough(mark, Cursor(text[i + 1..], out))
  {
    FindStep(mark, text, i);
    var n := Find(mark, text[i + 1..]);
    if n < |text[i + 1..]| {
      assert text[i..][1 + n + |mark|..] == text[i + 1..][n + |mark|..];
    }
  }

  lemma SkipThroughEnd(mark: string, c: Cursor)
    ensures c.rest == [] ==> SkipThrough(mark, c) == c
    ensures mark <= c.rest && c.rest != [] ==> SkipThrough(mark, c) == c.(rest := c.rest[|mark|..])
  {
  }

  lemma CopyStep(t: Token, text: string, i: nat, out: string)
    requires i < |text| && !Stops(t, text[i])
    ensures Copy(t, Cursor(text[i..], out)) == Copy(t, Cursor(text[i + 1..], out + [text[i]]))
  {
    LenStep(t, text, i);
    var n := Len(t, text[i + 1..]);
    assert text[i..][1 + n..] == text[i + 1..][n..];
    assert text[i..][..1 + n] == [text[i]] + text[i + 1..][..n];
    assert out + ([text[i]] + text[i + 1..][..n]) == out + [text[i]] + text[i + 1..][..n];
  }

  lemma CopyEnd(t: Token, c: Cursor)
    requires c.rest == [] || Stops(t, c.rest[0])
    ensures Copy(t, c) == c
  {
    assert c.rest[0..] == c.rest && c.out + c.rest[..0] == c.out;
  }

  // ---------- The program ----------

  class XmlUniformiser {
    var index: nat
    const xml: string
    var stripped: string

    /** The cursor never passes the end of the text. */
    ghost predicate Valid()
      reads this
    {
      index <= |xml|
    }

    ghost function State(): Cursor
      requires Valid()
      reads this
    {
      Cursor(xml[index..], stripped)
    }

    constructor (text: string)
      ensures Valid() && xml == text && State() == Cursor(text, [])
    {
      index, xml, stripped := 0, text, [];
    }

    method Uniformise() returns (result: string)
      requires Valid()
      modifies this
      ensures Valid() && index == |xml|
      ensures result == Strip(old(State()))
    {
      while index < |xml|
        invariant Valid() && Strip(State()) == Strip(old(State()))
        decreases |xml| - index
      {
        SkipSpaces();
        if StartsWith("<?") {
          SkipMarked("?>");
        } else if StartsWith("<!--") {
          SkipMarked("-->");
        } else if StartsWith("<") {
          CopyElementText();
        } else {
          CopyElementContent();
        }
      }
      result := stripped;
    }

    /** Taking the substring is in range exactly because the cursor is. */
    predicate StartsWith(expected: string)
      requires Valid()
      reads this
      ensures StartsWith(expected) == (expected <= State().rest)
    {
      var end := if index + |expected| <= |xml| then index + |expected| else |xml|;
      xml[index..end] == expected
    }

    method SkipSpaces()
      requires Valid()
      modifies this`index
      ensures Valid() && State() == Skip(old(State()))
    {
      ghost var start := index;
      while index < |xml| && IsSpace(xml[index])
        invariant start <= index <= |xml|
        invariant Len(Blank, xml[start..]) == index - start + Len(Blank, xml[index..])
      {
        LenStep(Blank, xml, index);
        index := index + 1;
      }
      assert xml[start..][index - start..] == xml[index..];
    }

    /** skipProcessed and skipComment. */
    method SkipMarked(mark: string)
      requires Valid() && mark != []
      modifies this`index
      ensures Valid() && State() == SkipThrough(mark, old(State()))
    {
      hide SkipThrough;
      while index < |xml| && !StartsWith(mark)
        invariant Valid() && SkipThrough(mark, State()) == SkipThrough(mark, old(State()))
      {
        SkipThroughStep(mark, xml, index, stripped);
        index := index + 1;
      }
      SkipThroughEnd(mark, State());
      if index < |xml| {
        assert xml[index..][|mark|..] == xml[index + |mark|..];
        index := index + |mark|;
      }
    }

    /** The copying loops of names, attribute names, values and contents. */
    method CopyRun(t: Token)
      requires Valid()
      modifies this
      ensures Valid() && State() == Copy(t, old(State()))
    {
      while index < |xml| && !Stops(t, xml[index])
        invariant Valid() && Copy(t, State()) == Copy(t, old(State()))
      {
        CopyStep(t, xml, index, stripped);
        stripped := stripped + [xml[index]];
        index := index + 1;
      }
      CopyEnd(t, State());
    }

    method CopyOne()
      requires Valid()
      modifies this
      ensures Valid() && State() == CopyNext(old(State()))
    {
      if index < |xml| {
        assert xml[index..][1..] == xml[index + 1..];
        stripped := stripped + [xml[index]];
        index := index + 1;
      }
    }

    method CopyElementText()
      requires Valid()
      modifies this
      ensures Valid() && State() == CopyElement(old(State()))
    {
      hide Copy, CopyAttributes;
      CopyRun(Name);
      CopyElementAttributes();
    }

    /** The body of the attribute loop after the test for the closing bracket. */
    method CopyOneAttribute(hadSpace: bool)
      requires Valid()
      modifies this
      ensures Valid()
      ensures State() == NamedAttribute(if hadSpace then Emit(old(State())) else old(State()))
    {
      if hadSpace {
        stripped := stripped + " ";
      }
      CopyRun(AttributeName);
      SkipSpaces();
      if StartsWith("=") {
        CopyOne();
        CopyAttributeValue();
      } else {
        stripped := stripped + " ";
      }
    }

    method CopyElementAttributes()
      requires Valid()
      modifies this
      ensures Valid() && State() == CopyAttributes(old(State()))
    {
      var going := true;
      while going
        invariant Valid()
        invariant going ==> CopyAttributes(State()) == CopyAttributes(old(State()))
        invariant !going ==> CopyNext(State()) == CopyAttributes(old(State()))
        decreases going, |xml| - index
      {
        var hadSpace := index < |xml| && IsSpace(xml[index]);
        SkipSpaces();
        if StartsWith(">") {
          break;
        }
        CopyOneAttribute(hadSpace);
        going := index < |xml|;
      }
      CopyOne();
    }

    method CopyAttributeValue()
      requires Valid()
      modifies this
      ensures Valid() && State() == CopyValue(old(State()))
    {
      hide Skip, Copy, CopyNext;
      SkipSpaces();
      CopyRun(Quoted);
      CopyOne();
      CopyRun(Quoted);
      CopyOne();
    }

    method CopyElementContent()
      requires Valid()
      modifies this
      ensures Valid() && State() == CopyContent(old(State()))
    {
      hide Copy, TrimEnd;
      CopyRun(Content);
      RemoveTrailingSpaces();
    }

    method RemoveTrailingSpaces()
      modifies this`stripped
      ensures stripped == TrimEnd(old(stripped))
    {
      var end := |stripped|;
      assert stripped[..end] == stripped;
      while end - 1 > 0 && IsSpace(stripped[end - 1])
        invariant 0 <= end <= |stripped|
        invariant TrimEnd(stripped[..end]) == TrimEnd(stripped)
      {
        assert stripped[..end][..end - 1] == stripped[..end - 1];
        end := end - 1;
      }
      stripped := stripped[..end];
    }
  }
}
