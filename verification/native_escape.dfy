/** SQL string escaping of package native (native/codecs.go): escapeString puts a backslash
    before the bytes MySQL treats specially in a quoted string, escapeQuotes doubles each
    single quote.  Both walk the text once, copying the run since the last special byte and
    then that byte's replacement.
    Go ranges over the runes of the string, but every special character is ASCII and an
    ASCII byte of UTF-8 is always a rune of its own, so walking the bytes finds the same
    positions. */
module NativeEscape {
  import opened Wrappers
  import opened Bytes

  const Backslash: Byte := 92
  const Quote: Byte := 39
  const DoubleQuote: Byte := 34

  /** The text with every byte replaced by f of it. */
  function Expand(t: seq<Byte>, f: Byte -> seq<Byte>): (r: seq<Byte>)
    ensures t == [] ==> r == []
  {
    if t == [] then [] else Expand(t[..|t| - 1], f) + f(t[|t| - 1])
  }

  /** Expanding a concatenation expands each part. */
  lemma {:induction false} ExpandConcat(a: seq<Byte>, b: seq<Byte>, f: Byte -> seq<Byte>)
    ensures Expand(a + b, f) == Expand(a, f) + Expand(b, f)
    decreases |b|
  {
    if b == [] {
      assert a + b == a;
    } else {
      var b' := b[..|b| - 1];
      assert (a + b)[..|a + b| - 1] == a + b';
      ExpandConcat(a, b', f);
    }
  }

  /** Expansion seen from the front. */
  lemma ExpandCons(c: Byte, t: seq<Byte>, f: Byte -> seq<Byte>)
    ensures Expand([c] + t, f) == f(c) + Expand(t, f)
  {
    ExpandConcat([c], t, f);
    assert Expand([c], f) == Expand([], f) + f(c);
  }

  // ---------------------------------------------------------------- escapeString

  /** The two-byte escape of a special byte: NUL, newline, carriage return, backslash, single
      and double quote and control-Z. */
  function EscapeOf(b: Byte): (e: Option<seq<Byte>>)
    ensures e.Some? ==> |e.value| == 2 && e.value[0] == Backslash
  {
    if b == 0 then Some([Backslash, 48])              // \0
    else if b == 10 then Some([Backslash, 110])       // \n
    else if b == 13 then Some([Backslash, 114])       // \r
    else if b == Backslash then Some([Backslash, Backslash])
    else if b == Quote then Some([Backslash, Quote])
    else if b == DoubleQuote then Some([Backslash, DoubleQuote])
    else if b == 26 then Some([Backslash, 90])        // \Z
    else None
  }

  predicate IsSpecial(b: Byte)
  {
    EscapeOf(b).Some?
  }

  function EscapeByte(b: Byte): seq<Byte>
  {
    if IsSpecial(b) then EscapeOf(b).value else [b]
  }

  function Escaped(t: seq<Byte>): seq<Byte>
  {
    Expand(t, EscapeByte)
  }

  /** escapeString: the loop keeps `last`, the start of the run not yet copied. */
  method EscapeString(txt: seq<Byte>) returns (r: seq<Byte>)
    ensures r == Escaped(txt)
  {
    var buf: seq<Byte> := [];
    var last := 0;
    for ii := 0 to |txt|
      invariant last <= ii
      invariant buf + txt[last..ii] == Escaped(txt[..ii])
    {
      ExpandConcat(txt[..ii], [txt[ii]], EscapeByte);
      assert txt[..ii + 1] == txt[..ii] + [txt[ii]];
      var esc := EscapeOf(txt[ii]);
      if esc.None? {
        assert txt[last..ii + 1] == txt[last..ii] + [txt[ii]];
        continue;
      }
      buf := buf + txt[last..ii] + esc.value;
      last := ii + 1;
    }
    assert txt[..|txt|] == txt;
    r := buf + txt[last..];
  }

  /** The byte a backslash escape stands for. */
  function UnescapeOf(b: Byte): Byte
  {
    if b == 48 then 0 else if b == 110 then 10 else if b == 114 then 13
    else if b == 90 then 26 else b
  }

  /** The inverse of escapeString: a backslash and the byte after it stand for one byte. */
  function Unescape(s: seq<Byte>): seq<Byte>
  {
    if s == [] then []
    else if s[0] == Backslash && |s| >= 2 then [UnescapeOf(s[1])] + Unescape(s[2..])
    else [s[0]] + Unescape(s[1..])
  }

  /** Unescaping an escaped text gives the text back. */
  lemma {:induction false} UnescapeEscaped(t: seq<Byte>)
    ensures Unescape(Escaped(t)) == t
    decreases |t|
  {
    if t != [] {
      var c, t' := t[0], t[1..];
      assert t == [c] + t';
      ExpandCons(c, t', EscapeByte);
      UnescapeByte(c, Escaped(t'));
      UnescapeEscaped(t');
    }
  }

  /** The escape of one byte unescapes to that byte, whatever follows it. */
  lemma UnescapeByte(c: Byte, rest: seq<Byte>)
    ensures Unescape(EscapeByte(c) + rest) == [c] + Unescape(rest)
  {
    var e := EscapeByte(c) + rest;
    if IsSpecial(c) {
      assert e[2..] == rest;
    } else {
      assert e[1..] == rest;
    }
  }

  /** Escaping adds one byte for each special byte. */
  function Specials(t: seq<Byte>): nat
  {
    if t == [] then 0 else Specials(t[..|t| - 1]) + (if IsSpecial(t[|t| - 1]) then 1 else 0)
  }

  lemma {:induction false} EscapedLength(t: seq<Byte>)
    ensures |Escaped(t)| == |t| + Specials(t)
    ensures Specials(t) == 0 <==> forall i | 0 <= i < |t| :: !IsSpecial(t[i])
    decreases |t|
  {
    if t != [] {
      var t' := t[..|t| - 1];
      EscapedLength(t');
      assert forall i | 0 <= i < |t'| :: t'[i] == t[i];
    }
  }

  /** A text without special bytes is left as it is, and only such a text is. */
  lemma EscapedUnchanged(t: seq<Byte>)
    ensures Escaped(t) == t <==> forall i | 0 <= i < |t| :: !IsSpecial(t[i])
  {
    EscapedLength(t);
    if forall i | 0 <= i < |t| :: !IsSpecial(t[i]) {
      PlainExpand(t);
    }
  }

  lemma {:induction false} PlainExpand(t: seq<Byte>)
    requires forall i | 0 <= i < |t| :: !IsSpecial(t[i])
    ensures Escaped(t) == t
    decreases |t|
  {
    if t != [] {
      PlainExpand(t[..|t| - 1]);
    }
  }

  // ---------------------------------------------------------------- escapeQuotes

  function QuoteByte(b: Byte): seq<Byte>
  {
    if b == Quote then [Quote, Quote] else [b]
  }

  function QuotesDoubled(t: seq<Byte>): seq<Byte>
  {
    Expand(t, QuoteByte)
  }

  /** escapeQuotes: the same walk, doubling each single quote. */
  method EscapeQuotes(txt: seq<Byte>) returns (r: seq<Byte>)
    ensures r == QuotesDoubled(txt)
  {
    var buf: seq<Byte> := [];
    var last := 0;
    for ii := 0 to |txt|
      invariant last <= ii
      invariant buf + txt[last..ii] == QuotesDoubled(txt[..ii])
    {
      ExpandConcat(txt[..ii], [txt[ii]], QuoteByte);
      assert txt[..ii + 1] == txt[..ii] + [txt[ii]];
      if txt[ii] == Quote {
        buf := buf + txt[last..ii] + [Quote, Quote];
        last := ii + 1;
      } else {
        assert txt[last..ii + 1] == txt[last..ii] + [txt[ii]];
      }
    }
    assert txt[..|txt|] == txt;
    r := buf + txt[last..];
  }

  /** The inverse of escapeQuotes: two single quotes stand for one. */
  function Undouble(s: seq<Byte>): seq<Byte>
  {
    if s == [] then []
    else if |s| >= 2 && s[0] == Quote && s[1] == Quote then [Quote] + Undouble(s[2..])
    else [s[0]] + Undouble(s[1..])
  }

  lemma {:induction false} UndoubleDoubled(t: seq<Byte>)
    ensures Undouble(QuotesDoubled(t)) == t
    decreases |t|
  {
    if t != [] {
      var c, t' := t[0], t[1..];
      assert t == [c] + t';
      ExpandCons(c, t', QuoteByte);
      var e := QuoteByte(c) + QuotesDoubled(t');
      if c == Quote {
        assert e[2..] == QuotesDoubled(t');
      } else {
        assert e[1..] == QuotesDoubled(t');
      }
      UndoubleDoubled(t');
    }
  }

  /** Doubling quotes changes a text exactly when it holds a single quote. */
  lemma {:induction false} QuotesDoubledUnchanged(t: seq<Byte>)
    ensures QuotesDoubled(t) == t <==> Quote !in t
    decreases |t|
  {
    if t != [] {
      var t' := t[..|t| - 1];
      QuotesDoubledUnchanged(t');
      assert t == t' + [t[|t| - 1]];
      QuotesDoubledLength(t');
    }
  }

  lemma {:induction false} QuotesDoubledLength(t: seq<Byte>)
    ensures |QuotesDoubled(t)| >= |t|
    decreases |t|
  {
    if t != [] {
      QuotesDoubledLength(t[..|t| - 1]);
    }
  }
}
