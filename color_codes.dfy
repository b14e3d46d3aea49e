/** `remove_color_codes`: deletes every Select Graphic Rendition control
    sequence (ESC, `[`, parameter bytes, `m`; section 8.3.117 of ECMA-48)
    from a string in one left-to-right pass and keeps every other character
    in order. Parameter bytes are the characters 0x30 to 0x3F (digits, `:`,
    `;`, `<`, `=`, `>`, `?`), as section 5.4 of ECMA-48 defines them. */
module ColorCodes {

  const Esc: char := '\U{1B}'

  predicate IsParameterByte(c: char)
  {
    '\U{30}' <= c <= '\U{3F}'
  }

  /** The control sequence that selects the rendition `params`. */
  function Sgr(params: string): string
  {
    [Esc, '['] + params + "m"
  }

  /** The length of the longest prefix of `s` made of parameter bytes. */
  function ParameterRun(s: string): (n: nat)
    ensures n <= |s|
    ensures forall k :: 0 <= k < n ==> IsParameterByte(s[k])
    ensures n < |s| ==> !IsParameterByte(s[n])
  {
    if |s| == 0 || !IsParameterByte(s[0]) then 0 else 1 + ParameterRun(s[1..])
  }

  /** The length of the SGR sequence `s` starts with, or 0 when `s` does not
      start with one. */
  function SgrPrefixLength(s: string): (n: nat)
    ensures n <= |s|
    ensures n == 0 || 3 <= n
  {
    if 2 <= |s| && s[0] == Esc && s[1] == '[' then
      var p := ParameterRun(s[2..]);
      if 2 + p < |s| && s[2 + p] == 'm' then 3 + p else 0
    else 0
  }

  /** `remove_color_codes`: every SGR sequence met on a left-to-right scan is
      dropped; every other character is kept. */
  function RemoveColorCodes(s: string): (r: string)
    ensures |r| <= |s|
    decreases |s|
  {
    if |s| == 0 then ""
    else
      var n := SgrPrefixLength(s);
      if n > 0 then RemoveColorCodes(s[n..]) else [s[0]] + RemoveColorCodes(s[1..])
  }

  /** True when an SGR sequence starts at position `i` of `s`. */
  predicate SgrAt(s: string, i: nat)
    requires i <= |s|
  {
    SgrPrefixLength(s[i..]) > 0
  }

  /** A string that contains an SGR sequence gets strictly shorter. */
  lemma {:induction false} RemovalShrinks(s: string, i: nat)
    requires i < |s| && SgrAt(s, i)
    ensures |RemoveColorCodes(s)| < |s|
    decreases |s|
  {
    if SgrPrefixLength(s) == 0 {
      assert i > 0;
      assert s[1..][i - 1..] == s[i..];
      RemovalShrinks(s[1..], i - 1);
    }
  }

  lemma {:induction false} NoSgrUnchanged(s: string)
    requires forall i :: 0 <= i < |s| ==> !SgrAt(s, i)
    ensures RemoveColorCodes(s) == s
    decreases |s|
  {
    if |s| > 0 {
      assert !SgrAt(s, 0) && s[0..] == s;
      forall i | 0 <= i < |s| - 1
        ensures !SgrAt(s[1..], i)
      {
        assert s[1..][i..] == s[i + 1..];
        assert !SgrAt(s, i + 1);
      }
      NoSgrUnchanged(s[1..]);
    }
  }

  /** A string comes back unchanged exactly when no SGR sequence starts
      anywhere in it. */
  lemma UnchangedIffNoSgr(s: string)
    ensures RemoveColorCodes(s) == s <==> forall i :: 0 <= i < |s| ==> !SgrAt(s, i)
  {
    if forall i :: 0 <= i < |s| ==> !SgrAt(s, i) {
      NoSgrUnchanged(s);
    } else {
      var i :| 0 <= i < |s| && SgrAt(s, i);
      RemovalShrinks(s, i);
    }
  }

  /** Text without an escape character is returned as it is. */
  lemma PlainTextUnchanged(s: string)
    requires Esc !in s
    ensures RemoveColorCodes(s) == s
  {
    forall i | 0 <= i < |s|
      ensures !SgrAt(s, i)
    {
      assert s[i..][0] == s[i];
    }
    NoSgrUnchanged(s);
  }

  /** A string that does not start with an escape character keeps its first
      character. */
  lemma FirstCharKept(s: string)
    requires |s| > 0 && s[0] != Esc
    ensures RemoveColorCodes(s) == [s[0]] + RemoveColorCodes(s[1..])
  {
    assert SgrPrefixLength(s) == 0;
  }

  /** Text without an escape character in front of a string passes through
      and the rest is stripped on its own. */
  lemma {:induction false} PlainPrefixKept(text: string, rest: string)
    requires Esc !in text
    ensures RemoveColorCodes(text + rest) == text + RemoveColorCodes(rest)
    decreases |text|
  {
    if |text| > 0 {
      var s := text + rest;
      assert s[0] == text[0];
      FirstCharKept(s);
      assert s[1..] == text[1..] + rest;
      assert Esc !in text[1..] by {
        assert multiset(text[1..]) <= multiset(text) by {
          assert text == [text[0]] + text[1..];
        }
      }
      PlainPrefixKept(text[1..], rest);
      calc {
        RemoveColorCodes(s);
        [text[0]] + RemoveColorCodes(text[1..] + rest);
        [text[0]] + (text[1..] + RemoveColorCodes(rest));
        { assert text == [text[0]] + text[1..]; }
        text + RemoveColorCodes(rest);
      }
    } else {
      assert text + rest == rest;
    }
  }

  /** An SGR sequence in front of a string is dropped whole. */
  lemma SgrPrefixDropped(params: string, rest: string)
    requires forall k :: 0 <= k < |params| ==> IsParameterByte(params[k])
    ensures RemoveColorCodes(Sgr(params) + rest) == RemoveColorCodes(rest)
  {
    var s := Sgr(params) + rest;
    var tail := s[2..];
    assert tail == params + "m" + rest;
    assert tail[|params|] == 'm';
    assert forall k :: 0 <= k < |params| ==> tail[k] == params[k];
    assert ParameterRun(tail) == |params|;
    assert SgrPrefixLength(s) == |params| + 3;
    assert s[|params| + 3..] == rest;
  }

  /** Solver hint for the proofs below: regrouping a concatenation, which
      keeps their steps small. */
  lemma Associative(a: string, b: string, c: string)
    ensures a + b + c == a + (b + c)
  {
  }

  /** A piece of coloured terminal output: plain text, or the SGR sequence
      with the given parameters. */
  datatype Piece = Text(text: string) | Code(params: string)

  predicate WellFormed(pieces: seq<Piece>)
  {
    forall k :: 0 <= k < |pieces| ==>
      match pieces[k]
      case Text(t) => Esc !in t
      case Code(p) => forall j :: 0 <= j < |p| ==> IsParameterByte(p[j])
  }

  /** The string the pieces print as. */
  function Render(pieces: seq<Piece>): string
  {
    if |pieces| == 0 then ""
    else
      (match pieces[0] case Text(t) => t case Code(p) => Sgr(p)) + Render(pieces[1..])
  }

  /** The text the pieces show once the colours are gone. */
  function PlainText(pieces: seq<Piece>): string
  {
    if |pieces| == 0 then ""
    else
      (match pieces[0] case Text(t) => t case Code(_) => "") + PlainText(pieces[1..])
  }

  lemma {:induction false} RenderAppend(a: seq<Piece>, b: seq<Piece>)
    ensures Render(a + b) == Render(a) + Render(b)
    ensures PlainText(a + b) == PlainText(a) + PlainText(b)
  {
    if |a| > 0 {
      assert (a + b)[1..] == a[1..] + b;
      RenderAppend(a[1..], b);
    } else {
      assert a + b == b;
    }
  }

  /** Stripping coloured output leaves exactly its text, in order: the
      colour codes, adjacent or not, all go and nothing else does. */
  lemma {:induction false} StripRendered(pieces: seq<Piece>)
    requires WellFormed(pieces)
    ensures RemoveColorCodes(Render(pieces)) == PlainText(pieces)
  {
    if |pieces| > 0 {
      assert WellFormed(pieces[1..]) by {
        forall k | 0 <= k < |pieces| - 1
          ensures pieces[1..][k] == pieces[k + 1]
        {
        }
      }
      StripRendered(pieces[1..]);
      match pieces[0]
      case Text(t) =>
        PlainPrefixKept(t, Render(pieces[1..]));
      case Code(p) =>
        SgrPrefixDropped(p, Render(pieces[1..]));
    }
  }

  lemma EmptyStringUnchanged()
    ensures RemoveColorCodes("") == ""
  {
  }

  /** One code between two stretches of text goes; the text on both sides
      stays, in order. */
  lemma CodeBetweenText(before: string, params: string, after: string)
    requires Esc !in before && Esc !in after
    requires forall k :: 0 <= k < |params| ==> IsParameterByte(params[k])
    ensures RemoveColorCodes(before + Sgr(params) + after) == before + after
  {
    PlainTextUnchanged(after);
    SgrPrefixDropped(params, after);
    PlainPrefixKept(before, Sgr(params) + after);
    Associative(before, Sgr(params), after);
  }

  /** `Sgr("31")` is the five characters ESC, `[`, `3`, `1` and `m`. */
  lemma SingleCodeExample()
    ensures RemoveColorCodes("hello" + Sgr("31") + " world") == "hello world"
  {
    assert Esc !in "hello" && Esc !in " world" by {
    }
    CodeBetweenText("hello", "31", " world");
    assert "hello" + " world" == "hello world" by {
    }
  }

  /** A code in front of the text and another inside it both go. */
  lemma CodesAroundText(first: string, before: string, second: string, after: string)
    requires forall k :: 0 <= k < |first| ==> IsParameterByte(first[k])
    requires forall k :: 0 <= k < |second| ==> IsParameterByte(second[k])
    requires Esc !in before && Esc !in after
    ensures RemoveColorCodes(Sgr(first) + before + Sgr(second) + after) == before + after
  {
    CodeBetweenText(before, second, after);
    SgrPrefixDropped(first, before + Sgr(second) + after);
    calc {
      Sgr(first) + before + Sgr(second) + after;
      { Associative(Sgr(first) + before, Sgr(second), after); }
      Sgr(first) + before + (Sgr(second) + after);
      { Associative(Sgr(first), before, Sgr(second) + after); }
      Sgr(first) + (before + (Sgr(second) + after));
      { Associative(before, Sgr(second), after); }
      Sgr(first) + (before + Sgr(second) + after);
    }
  }

  /** Solver hint for `GreetingExample`: the literal facts are proved here
      on their own, which keeps the example's proof small. */
  lemma GreetingHalves()
    ensures Esc !in "Hello," && Esc !in " World!"
    ensures "Hello," + " World!" == "Hello, World!"
  {
  }

  lemma GreetingExample()
    ensures RemoveColorCodes(Sgr("36") + "Hello," + Sgr("32") + " World!") == "Hello, World!"
  {
    GreetingHalves();
    CodesAroundText("36", "Hello,", "32", " World!");
  }

  /** Adjacent codes and resets all go, leaving only the message around
      them. */
  lemma AdjacentCodesRemoved(head: string, tail: string)
    requires Esc !in head && Esc !in tail
    ensures RemoveColorCodes(Sgr("1") + Sgr("31") + head + Sgr("0") + Sgr("31") + tail) == head + tail
  {
    PlainTextUnchanged(tail);
    var s4 := Sgr("31") + tail;
    SgrPrefixDropped("31", tail);
    var s3 := Sgr("0") + s4;
    SgrPrefixDropped("0", s4);
    var s2 := head + s3;
    PlainPrefixKept(head, s3);
    var s1 := Sgr("31") + s2;
    SgrPrefixDropped("31", s2);
    var s0 := Sgr("1") + s1;
    SgrPrefixDropped("1", s1);
    var a, b, c, d := Sgr("1"), Sgr("31"), Sgr("0"), Sgr("31");
    calc {
      a + b + head + c + d + tail;
      { Associative(a + b + head + c, d, tail); }
      a + b + head + c + (d + tail);
      { Associative(a + b + head, c, d + tail); }
      a + b + head + (c + (d + tail));
      { Associative(a + b, head, c + (d + tail)); }
      a + b + (head + (c + (d + tail)));
      { Associative(a, b, head + (c + (d + tail))); }
      s0;
    }
  }

  /** Solver hint for `AdjacentCodesExample`: the literal facts are proved
      here on their own, which keeps the example's proof small. */
  lemma ErrorMessageHalves()
    ensures Esc !in "Error:" && Esc !in " file not found"
    ensures "Error:" + " file not found" == "Error: file not found"
  {
  }

  lemma AdjacentCodesExample()
    ensures RemoveColorCodes(Sgr("1") + Sgr("31") + "Error:" + Sgr("0") + Sgr("31") + " file not found")
      == "Error: file not found"
  {
    ErrorMessageHalves();
    AdjacentCodesRemoved("Error:", " file not found");
  }

  /** An escape followed by `[` and another escape starts no sequence: the
      first escape is kept as text. */
  lemma BrokenCodeKept(s: string)
    requires |s| > 2 && s[0] == Esc && s[1] == '[' && s[2] == Esc
    ensures RemoveColorCodes(s) == [Esc] + RemoveColorCodes(s[1..])
  {
    assert SgrPrefixLength(s) == 0;
  }

  /** The removal is a single pass: a sequence that only forms once an inner
      one is removed stays in the result, so removing twice can remove
      more than removing once. */
  lemma SinglePass(params: string)
    requires forall k :: 0 <= k < |params| ==> IsParameterByte(params[k])
    ensures RemoveColorCodes([Esc, '['] + Sgr(params) + "m") == Sgr("")
    ensures RemoveColorCodes(Sgr("")) == ""
  {
    var inner := Sgr(params) + "m";
    var s := [Esc, '['] + inner;
    Associative([Esc, '['], Sgr(params), "m");
    BrokenCodeKept(s);
    assert s[1..] == ['['] + inner;
    PlainPrefixKept(['['], inner);
    SgrPrefixDropped(params, "m");
    PlainTextUnchanged("m");
    SgrPrefixDropped("", "");
    assert Sgr("") + "" == Sgr("");
  }
}
