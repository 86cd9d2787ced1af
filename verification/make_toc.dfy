/** The godoc table-of-contents generator (doc/make_toc.py): every line of a godoc HTML
    page that holds a type or method heading becomes one entry of a `<dl>` list, a
    definition term for a type and a definition for a method.  The heading is found with
    the regular expression `.*<h(2|3) id="(.*)">(.*) <a .*>(.*)</a></h(2|3)>`, matched at the
    start of the line; each `.*` is greedy and `.` does not match a newline, so the match is
    found by trying, for each `.*` from left to right, the longest stretch that lets the rest
    of the expression match. */
module MakeToc {
  import opened Wrappers

  /** How far a `.*` can reach into `s`: up to the first newline. */
  function Reach(s: string): (k: nat)
    ensures k <= |s| && '\n' !in s[..k]
    ensures k < |s| ==> s[k] == '\n'
    decreases |s|
  {
    if s == [] || s[0] == '\n' then 0
    else
      var k := Reach(s[1..]);
      assert s[..k + 1] == [s[0]] + s[1..][..k];
      k + 1
  }

  predicate StartsWith(s: string, lit: string)
  {
    |lit| <= |s| && s[..|lit|] == lit
  }

  predicate IsLevel(c: char)
  {
    c == '2' || c == '3'
  }

  /** `</a></h(2|3)>`. */
  predicate Closes(t: string)
  {
    StartsWith(t, "</a></h") && |t| >= 9 && IsLevel(t[7]) && t[8] == '>'
  }

  /** The expression cut at each greedy `.*`: a stage is one `.*` and everything after it. */
  datatype Stage =
    | Close    // `(.*)</a></h(2|3)>`
    | Anchor   // `.*>` followed by Close
    | Keyword  // `(.*) <a ` followed by Anchor
    | Id       // `(.*)">` followed by Keyword
    | Heading  // `.*<h(2|3) id="` followed by Id: the whole expression

  /** How many groups a stage captures. */
  function Arity(st: Stage): nat
  {
    match st
    case Close => 1
    case Anchor => 1
    case Keyword => 2
    case Id => 3
    case Heading => 3
  }

  /** The stage's `.*` can stop at `j`: the literal text after it follows and the next stage
      matches what is left. */
  predicate Fits(st: Stage, s: string, j: nat)
    decreases |s|, 0, 0
  {
    j <= |s| &&
    match st
    case Close => Closes(s[j..])
    case Anchor => j < |s| && s[j] == '>' && Groups(Close, s[j + 1..]).Some?
    case Keyword => StartsWith(s[j..], " <a ") && Groups(Anchor, s[j + 4..]).Some?
    case Id => StartsWith(s[j..], "\">") && Groups(Keyword, s[j + 2..]).Some?
    case Heading =>
      j + 8 <= |s| && StartsWith(s[j..], "<h") && IsLevel(s[j + 2])
      && StartsWith(s[j + 3..], " id=\"") && Groups(Id, s[j + 8..]).Some?
  }

  /** The largest stopping place up to `k`: the backtracking of a greedy `.*`. */
  function Search(st: Stage, s: string, k: nat): (r: Option<nat>)
    ensures r.Some? ==> r.value <= k && Fits(st, s, r.value)
    decreases |s|, 1, k
  {
    if Fits(st, s, k) then Some(k) else if k == 0 then None else Search(st, s, k - 1)
  }

  /** The groups a stage captures at the start of `s`, or None when it does not match. */
  function Groups(st: Stage, s: string): (r: Option<seq<string>>)
    ensures r.Some? ==> |r.value| == Arity(st)
    decreases |s|, 2, 0
  {
    var k := Search(st, s, Reach(s));
    if k.None? then None
    else
      var j := k.value;
      match st
      case Close => Some([s[..j]])
      case Anchor => Groups(Close, s[j + 1..])
      case Keyword => Some([s[..j]] + Groups(Anchor, s[j + 4..]).value)
      case Id => Some([s[..j]] + Groups(Keyword, s[j + 2..]).value)
      case Heading => Groups(Id, s[j + 8..])
  }

  /** getTypeId: the id (group 2) and the name (groups 3 and 4 joined by a space). */
  function GetTypeId(line: string): Option<(string, string)>
  {
    var m := Groups(Heading, line);
    if m.Some? then Some((m.value[0], m.value[1] + " " + m.value[2])) else None
  }

  // ---------------------------------------------------------------- the output

  /** One entry: a method (an id with a '.') is a definition, a type a definition term;
      id and name go in as they are, without HTML escaping. */
  function Entry(idn: string, name: string): string
  {
    if '.' in idn then "    <dd><a href='#" + idn + "'>" + name + "</a></dd>"
    else "  <dt><a href='#" + idn + "'>" + name + "</a></dt>"
  }

  /** What one line contributes: its entry, or nothing when it holds no heading. */
  function EntryOf(line: string): seq<string>
  {
    var ti := GetTypeId(line);
    if ti.Some? then [Entry(ti.value.0, ti.value.1)] else []
  }

  /** The entries of the lines, in order. */
  function Entries(lines: seq<string>): seq<string>
    decreases |lines|
  {
    if lines == [] then [] else Entries(lines[..|lines| - 1]) + EntryOf(lines[|lines| - 1])
  }

  lemma EntriesStep(lines: seq<string>, i: nat)
    requires i < |lines|
    ensures Entries(lines[..i + 1]) == Entries(lines[..i]) + EntryOf(lines[i])
  {
    assert lines[..i + 1][..i] == lines[..i];
  }

  /** What the script prints for the page's lines. */
  function Toc(lines: seq<string>): seq<string>
  {
    ["<dl>"] + Entries(lines) + ["</dl>"]
  }

  function Usage(prog: string): string
  {
    "Usage: " + prog + " GODOC_HTML_FILE"
  }

  /** The script: the lines it prints and its exit status.  `argv` is sys.argv, whose first
      element is always there; the page's lines come with their newlines. */
  method MakeToc(argv: seq<string>, lines: seq<string>) returns (out: seq<string>, status: int)
    requires |argv| >= 1
    ensures |argv| != 2 || argv[1] == "-h" ==> out == [Usage(argv[0])] && status == 1
    ensures |argv| == 2 && argv[1] != "-h" ==> out == Toc(lines) && status == 0
  {
    if |argv| != 2 || argv[1] == "-h" {
      return [Usage(argv[0])], 1;
    }
    out := ["<dl>"];
    for i := 0 to |lines|
      invariant out == ["<dl>"] + Entries(lines[..i])
    {
      EntriesStep(lines, i);
      var ti := GetTypeId(lines[i]);
      if ti.None? {
        continue;
      }
      var (idn, name) := ti.value;
      if '.' in idn {
        out := out + ["    <dd><a href='#" + idn + "'>" + name + "</a></dd>"];
      } else {
        out := out + ["  <dt><a href='#" + idn + "'>" + name + "</a></dt>"];
      }
    }
    assert lines[..|lines|] == lines;
    out := out + ["</dl>"];
    status := 0;
  }

  // ---------------------------------------------------------------- properties

  /** The entries of two runs of lines are the entries of each, in order. */
  lemma {:induction false} EntriesConcat(a: seq<string>, b: seq<string>)
    ensures Entries(a + b) == Entries(a) + Entries(b)
    decreases |b|
  {
    if b == [] {
      assert a + b == a;
    } else {
      var n := |b| - 1;
      assert (a + b)[..|a + b| - 1] == a + b[..n];
      assert (a + b)[|a + b| - 1] == b[n];
      EntriesConcat(a, b[..n]);
    }
  }

  /** A line gives one entry when it holds a heading and none otherwise. */
  lemma OneLine(line: string)
    ensures Entries([line]) == EntryOf(line)
    ensures |Entries([line])| == if GetTypeId(line).Some? then 1 else 0
  {
    assert [line][..0] == [];
  }

  /** The list is always opened and closed, whatever the lines, and holds one entry per
      line with a heading, in the lines' order. */
  lemma TocShape(lines: seq<string>, line: string)
    ensures Toc(lines)[0] == "<dl>" && Toc(lines)[|Toc(lines)| - 1] == "</dl>"
    ensures Toc(lines + [line]) == ["<dl>"] + Entries(lines) + Entries([line]) + ["</dl>"]
  {
    EntriesConcat(lines, [line]);
  }

  /** The id and the name can be read back from an entry at fixed places: nothing in them
      is escaped. */
  lemma EntryHoldsFields(idn: string, name: string)
    ensures var e := Entry(idn, name);
      var k := if '.' in idn then 18 else 16;
      && |e| == k + |idn| + 2 + |name| + 9
      && e[k..k + |idn|] == idn
      && e[k + |idn| + 2..k + |idn| + 2 + |name|] == name
      && (StartsWith(e, "    <dd>") <==> '.' in idn)
  {
    var e := Entry(idn, name);
    var pre := if '.' in idn then "    <dd><a href='#" else "  <dt><a href='#";
    var post := if '.' in idn then "</a></dd>" else "</a></dt>";
    assert e == pre + idn + "'>" + name + post;
    var k := |pre|;
    assert e[k..k + |idn|] == idn;
    assert e[k + |idn| + 2..k + |idn| + 2 + |name|] == name;
    assert e[..8] == pre[..8];
    assert pre[..8][2] == if '.' in idn then ' ' else '<';
  }

  /** The `.*` stops at the last place it can: none beyond the one Search finds fits, and
      when Search finds none, none fits at all. */
  lemma {:induction false} SearchIsLargest(st: Stage, s: string, k: nat)
    ensures var r := Search(st, s, k);
      && (r.Some? ==> forall j :: r.value < j <= k ==> !Fits(st, s, j))
      && (r.None? ==> forall j :: 0 <= j <= k ==> !Fits(st, s, j))
    decreases k
  {
    if !Fits(st, s, k) && k > 0 {
      SearchIsLargest(st, s, k - 1);
      assert Search(st, s, k) == Search(st, s, k - 1);
    }
  }

  /** A stage matches when its `.*` finds a place to stop: what follows it was already
      checked there. */
  lemma StopMatches(st: Stage, s: string)
    ensures Groups(st, s).Some? <==> Search(st, s, Reach(s)).Some?
  {
    var k := Search(st, s, Reach(s));
    if k.Some? {
      var j := k.value;
      assert Fits(st, s, j);
      match st {
        case Close => assert Groups(st, s) == Some([s[..j]]);
        case Anchor => assert Groups(st, s) == Groups(Close, s[j + 1..]);
        case Keyword => assert Groups(Anchor, s[j + 4..]).Some?;
        case Id => assert Groups(Keyword, s[j + 2..]).Some?;
        case Heading => assert Groups(st, s) == Groups(Id, s[j + 8..]);
      }
    }
  }

  /** A stage matches exactly when its `.*` can stop somewhere before the first newline. */
  lemma Matches(st: Stage, s: string)
    ensures Groups(st, s).Some? <==> exists j :: 0 <= j <= Reach(s) && Fits(st, s, j)
  {
    SearchIsLargest(st, s, Reach(s));
    StopMatches(st, s);
    var k := Search(st, s, Reach(s));
    if k.Some? {
      assert 0 <= k.value <= Reach(s) && Fits(st, s, k.value);
      assert Groups(st, s).Some?;
      assert exists j :: 0 <= j <= Reach(s) && Fits(st, s, j);
    }
  }

  /** A `.*` can run over any text without a newline. */
  lemma {:induction false} ReachPast(x: string, y: string)
    requires '\n' !in x
    ensures Reach(x + y) >= |x|
    decreases |x|
  {
    if x != [] {
      assert (x + y)[1..] == x[1..] + y;
      ReachPast(x[1..], y);
    }
  }

  /** A stage whose `.*` can stop right after a run of text without a newline matches. */
  lemma StopAfter(st: Stage, x: string, rest: string)
    requires '\n' !in x && Fits(st, x + rest, |x|)
    ensures Groups(st, x + rest).Some?
  {
    ReachPast(x, rest);
    Matches(st, x + rest);
    assert 0 <= |x| <= Reach(x + rest) && Fits(st, x + rest, |x|);
    assert exists j :: 0 <= j <= Reach(x + rest) && Fits(st, x + rest, j);
  }

  /** No group holds a newline: `.` does not match one. */
  lemma {:induction false} NoNewline(st: Stage, s: string)
    ensures Groups(st, s).Some? ==> forall g :: g in Groups(st, s).value ==> '\n' !in g
    decreases |s|
  {
    var k := Search(st, s, Reach(s));
    if k.Some? {
      var j := k.value;
      assert s[..j] == s[..Reach(s)][..j];
      match st
      case Close =>
      case Anchor => NoNewline(Close, s[j + 1..]);
      case Keyword => NoNewline(Anchor, s[j + 4..]);
      case Id => NoNewline(Keyword, s[j + 2..]);
      case Heading => NoNewline(Id, s[j + 8..]);
    }
  }

  /** A heading line as godoc writes it, `<hN id="ID">NAME <a ATTRS>TEXT</a></hN>`, with
      whatever comes before it and after it on the line. */
  function HeadingLine(pre: string, lvl: char, idn: string, t3: string, attrs: string,
                       t4: string, lvl2: char, post: string): string
  {
    pre + ("<h" + ([lvl] + (" id=\"" + (idn + ("\">" + (t3 + (" <a " + (attrs + (">"
      + (t4 + ("</a></h" + ([lvl2] + (">" + post)))))))))))))
  }

  /** A literal in the middle of a string, and what follows it. */
  lemma Lit(x: string, lit: string, y: string)
    ensures StartsWith((x + (lit + y))[|x|..], lit)
    ensures (x + (lit + y))[|x| + |lit|..] == y
  {
    assert (x + (lit + y))[|x|..] == lit + y;
    assert (lit + y)[..|lit|] == lit;
  }

  /** Every heading of the shape godoc writes is listed, whatever comes before it on the
      line and after it, so long as no newline comes in between. */
  lemma HeadingListed(pre: string, lvl: char, idn: string, t3: string, attrs: string,
                      t4: string, lvl2: char, post: string)
    requires IsLevel(lvl) && IsLevel(lvl2)
    requires '\n' !in pre && '\n' !in idn && '\n' !in t3 && '\n' !in attrs && '\n' !in t4
    ensures GetTypeId(HeadingLine(pre, lvl, idn, t3, attrs, t4, lvl2, post)).Some?
  {
    var c := "</a></h" + ([lvl2] + (">" + post));
    assert Closes(c) by {
      assert c[..7] == "</a></h" && c[7] == lvl2 && c[8] == '>';
    }
    assert (t4 + c)[|t4|..] == c;
    StopAfter(Close, t4, c);
    var a := ">" + (t4 + c);
    Lit(attrs, ">", t4 + c);
    StopAfter(Anchor, attrs, a);
    var kw := " <a " + (attrs + a);
    Lit(t3, " <a ", attrs + a);
    StopAfter(Keyword, t3, kw);
    var d := "\">" + (t3 + kw);
    Lit(idn, "\">", t3 + kw);
    StopAfter(Id, idn, d);
    var h := "<h" + ([lvl] + (" id=\"" + (idn + d)));
    Lit(pre, "<h", [lvl] + (" id=\"" + (idn + d)));
    var u := [lvl] + (" id=\"" + (idn + d));
    assert (pre + h)[|pre| + 2..] == u;
    assert (pre + h)[|pre| + 2] == u[0] == lvl;
    assert (pre + h)[|pre| + 3..] == u[1..] == " id=\"" + (idn + d);
    assert (" id=\"" + (idn + d))[..5] == " id=\"";
    assert (" id=\"" + (idn + d))[5..] == idn + d;
    StopAfter(Heading, pre, h);
  }

  /** Only a line with `<h2 id="` or `<h3 id="` before its first newline is listed. */
  lemma ListedHasHeading(line: string)
    ensures GetTypeId(line).Some? ==>
      exists j :: 0 <= j && j + 8 <= Reach(line) && StartsWith(line[j..], "<h") && IsLevel(line[j + 2])
        && StartsWith(line[j + 3..], " id=\"")
  {
    var k := Search(Heading, line, Reach(line));
    if k.Some? {
      var j := k.value;
      NoNewline(Id, line[j + 8..]);
    }
  }

  /** Each entry is a single line of output. */
  lemma EntryIsOneLine(line: string)
    ensures forall e :: e in EntryOf(line) ==> '\n' !in e
  {
    NoNewline(Heading, line);
  }
}
