/** The data source name of the database/sql driver (godrv/driver.go): parseDSN splits
    `[PROTO://ADDR/]DBNAME/USER/PASSWD[?PARAMS]` into its fields, and parseParams reads the
    `key=value&...` parameters into a map.  A '/' in the password is written as '*' and a '*'
    as "**". */
module GoDriver {
  import opened Wrappers
  import opened Errors
  import opened GoStrings

  const DefaultProto: string := "tcp"
  const DefaultAddr: string := "127.0.0.1:3306"

  /** What parseDSN returns besides its error; params is None for a nil map. */
  datatype DSN = DSN(proto: string, addr: string, dbname: string, user: string, passwd: string,
                     params: Option<map<string, string>>)

  // ---------------------------------------------------------------- parseParams

  /** One parameter: the text before the first '=' and the text after it; none without one. */
  function ParamOf(item: string): Option<(string, string)>
  {
    var p := SplitN(item, "=", 2);
    if |p| != 2 then None else Some((p[0], p[1]))
  }

  /** The map parseParams builds from the items, in order, a later key overwriting an
      earlier one. */
  function ParamsOf(items: seq<string>): map<string, string>
    decreases |items|
  {
    if items == [] then map[]
    else
      var m := ParamsOf(items[..|items| - 1]);
      match ParamOf(items[|items| - 1])
      case None => m
      case Some((k, v)) => m[k := v]
  }

  /** parseParams. */
  method ParseParams(str: string) returns (params: map<string, string>)
    ensures params == ParamsOf(Split(str, "&"))
  {
    params := map[];
    var s := Split(str, "&");
    for i := 0 to |s|
      invariant params == ParamsOf(s[..i])
    {
      assert s[..i + 1][..i] == s[..i];
      var p := SplitN(s[i], "=", 2);
      if |p| != 2 {
        continue;
      }
      params := params[p[0] := p[1]];
    }
    assert s[..|s|] == s;
  }

  /** An item sets the key `k`. */
  predicate SetsKey(item: string, k: string)
  {
    ParamOf(item).Some? && ParamOf(item).value.0 == k
  }

  /** An item `k=v` with no '=' in `k` sets `k` to `v`, '=' and all in `v`. */
  lemma ParamOfSplits(k: string, v: string)
    requires '=' !in k
    ensures ParamOf(k + "=" + v) == Some((k, v))
  {
    SplitNAfter(k, "=", v, 2);
  }

  /** An item without '=' is skipped. */
  lemma ParamOfSkips(item: string)
    requires '=' !in item
    ensures ParamOf(item) == None
  {
    SplitNWithout(item, "=", 2);
  }

  /** The position of the last item that sets `k`, or -1 when none does. */
  function LastSetter(items: seq<string>, k: string): (i: int)
    ensures -1 <= i < |items|
    ensures i >= 0 ==> SetsKey(items[i], k)
    ensures forall j :: i < j < |items| ==> !SetsKey(items[j], k)
    decreases |items|
  {
    if items == [] then -1
    else if SetsKey(items[|items| - 1], k) then |items| - 1
    else
      var i := LastSetter(items[..|items| - 1], k);
      assert forall j :: i < j < |items| - 1 ==> items[..|items| - 1][j] == items[j];
      i
  }

  /** A key is in the map exactly when some item sets it, and then it holds the value of
      the last item that does. */
  lemma {:induction false} LastItemWins(items: seq<string>, k: string)
    ensures k in ParamsOf(items) <==> LastSetter(items, k) >= 0
    ensures k in ParamsOf(items) ==> ParamOf(items[LastSetter(items, k)]) == Some((k, ParamsOf(items)[k]))
    decreases |items|
  {
    if items != [] {
      var n := |items| - 1;
      LastItemWins(items[..n], k);
      if !SetsKey(items[n], k) {
        var i := LastSetter(items[..n], k);
        if i >= 0 {
          assert items[..n][i] == items[i];
        }
      }
    }
  }

  // ---------------------------------------------------------------- the password

  /** The password as the driver's documentation asks for it to be written: each '/' as
      '*', each '*' as "**". */
  function Star(p: string): (e: string)
    ensures '/' !in e
    ensures '?' in e <==> '?' in p
    decreases |p|
  {
    if p == [] then []
    else (if p[0] == '/' then "*" else if p[0] == '*' then "**" else [p[0]]) + Star(p[1..])
  }

  /** What parseDSN does to the password: every '*' becomes '/', then every "//" '*'. */
  function Unstar(e: string): string
  {
    Replace(Replace(e, "*", "/"), "//", "*")
  }

  /** The first step undoes each character's encoding into slashes. */
  function Slashes(p: string): string
    decreases |p|
  {
    if p == [] then []
    else (if p[0] == '/' then "/" else if p[0] == '*' then "//" else [p[0]]) + Slashes(p[1..])
  }

  /** No '/' in the password is followed by another '/' or a '*'. */
  predicate NoSlashRun(p: string)
  {
    forall i :: 0 <= i < |p| - 1 ==> p[i] == '/' ==> p[i + 1] != '/' && p[i + 1] != '*'
  }

  lemma {:induction false} StarToSlashes(p: string)
    ensures Replace(Star(p), "*", "/") == Slashes(p)
    decreases |p|
  {
    if p != [] {
      var c := p[0];
      var piece := if c == '/' then "*" else if c == '*' then "**" else [c];
      assert Star(p) == piece + Star(p[1..]);
      ReplaceCharConcat(piece, Star(p[1..]), '*', "/");
      StarToSlashes(p[1..]);
      StarCharToSlashes(c);
    }
  }

  /** One character's encoding, with '*' read back as '/'. */
  lemma StarCharToSlashes(c: char)
    ensures Replace(if c == '/' then "*" else if c == '*' then "**" else [c], "*", "/")
         == if c == '/' then "/" else if c == '*' then "//" else [c]
  {
    var piece := if c == '/' then "*" else if c == '*' then "**" else [c];
    if c == '*' {
      assert piece[..1] == "*" && piece[1..] == "*";
    } else if c == '/' {
      assert piece[..1] == "*" && piece[1..] == [];
    } else {
      assert piece[..1] != "*" && piece[1..] == [];
    }
  }

  lemma {:induction false} SlashesToPlain(p: string)
    requires NoSlashRun(p)
    ensures Replace(Slashes(p), "//", "*") == p
    decreases |p|
  {
    if p != [] {
      var c := p[0];
      var t := Slashes(p[1..]);
      assert NoSlashRun(p[1..]) by {
        forall i | 0 <= i < |p[1..]| - 1
          ensures p[1..][i] == '/' ==> p[1..][i + 1] != '/' && p[1..][i + 1] != '*'
        {
          assert p[1..][i] == p[i + 1] && p[1..][i + 1] == p[i + 2];
        }
      }
      SlashesToPlain(p[1..]);
      if c == '*' {
        assert Slashes(p) == "//" + t;
        ReplacePair(t);
      } else {
        assert Slashes(p) == [c] + t;
        if c == '/' && t != [] {
          assert p[1] != '/' && p[1] != '*';
          assert Slashes(p[1..]) == [p[1]] + Slashes(p[2..]);
        }
        ReplaceSingle(c, t);
        assert p == [c] + p[1..];
      }
    }
  }

  /** A leading "//" reads back as '*'. */
  lemma ReplacePair(t: string)
    ensures Replace("//" + t, "//", "*") == "*" + Replace(t, "//", "*")
  {
    assert ("//" + t)[..2] == "//" && ("//" + t)[2..] == t;
  }

  /** A leading character that does not start a "//" is kept. */
  lemma ReplaceSingle(c: char, t: string)
    requires c != '/' || t == [] || t[0] != '/'
    ensures Replace([c] + t, "//", "*") == [c] + Replace(t, "//", "*")
  {
    var s := [c] + t;
    assert s[1..] == t;
    if |s| >= 2 {
      assert s[..2][0] == c && s[..2][1] == t[0];
    }
  }

  /** The documented encoding reads back whenever no '/' in the password is followed by
      another '/' or a '*'. */
  lemma UnstarStar(p: string)
    requires NoSlashRun(p)
    ensures Unstar(Star(p)) == p
  {
    StarToSlashes(p);
    SlashesToPlain(p);
  }

  // Otherwise it cannot: "/*" and "*/" are both written "***", which reads back as "*/".
  lemma StarIsAmbiguous()
    ensures Star("/*") == Star("*/") == "***"
    ensures Unstar("***") == "*/"
  {
    assert Star("/*") == "*" + Star("*");
    assert Star("*/") == "**" + Star("/");
    var s := "***";
    assert s[..1] == "*" && s[1..] == "**";
    assert Replace(s, "*", "/") == "///" by {
      assert s[1..][..1] == "*" && s[1..][1..] == "*";
    }
    var t := "///";
    assert t[..2] == "//" && t[2..] == "/";
    assert "/"[..1] != "//"[..1] || |"/"| < 2;
  }

  // ---------------------------------------------------------------- parseDSN

  /** The address with ":3306" appended when it names no port. */
  function WithPort(addr: string): string
  {
    if Contains(addr, ":") then addr else addr + ":3306"
  }

  /** parseDSN, first step: the text before the first '?' and the parameters after it. */
  function SplitParams(uri: string): (string, Option<map<string, string>>)
  {
    var q := SplitN(uri, "?", 2);
    if |q| == 2 then (q[0], Some(ParamsOf(Split(q[1], "&")))) else (uri, None)
  }

  /** Second step: whether a "PROTO://" prefix is there, the protocol, and the rest. */
  function SplitProto(uri: string): (bool, string, string)
  {
    var p := SplitN(uri, "://", 2);
    if |p| == 2 then (true, p[0], p[1]) else (false, DefaultProto, uri)
  }

  /** Last step: the fields from the '/'-separated parts. */
  function Fields(hasProto: bool, proto: string, s: seq<string>, params: Option<map<string, string>>): Result<DSN, Error>
  {
    if |s| == 1 then Ok(DSN(proto, DefaultAddr, s[0], "", "", params))
    else if |s| == 2 then Ok(DSN(proto, DefaultAddr, s[0], s[1], "", params))
    else if |s| == 3 then
      if hasProto then Ok(DSN(proto, WithPort(s[0]), s[1], s[2], "", params))
      else Ok(DSN(proto, DefaultAddr, s[0], s[1], Unstar(s[2]), params))
    else if |s| == 4 then Ok(DSN(proto, WithPort(s[0]), s[1], s[2], Unstar(s[3]), params))
    else Err(BadDSN)
  }

  /** parseDSN.  SplitN never returns more than four parts, so it never fails. */
  function ParseDSN(uri: string): (r: Result<DSN, Error>)
    ensures r.Ok?
  {
    var (uri, params) := SplitParams(uri);
    var (hasProto, proto, uri) := SplitProto(uri);
    Fields(hasProto, proto, SplitN(uri, "/", 4), params)
  }

  /** The "?PARAMS" suffix, if any, and the map parseDSN makes of it. */
  function Suffix(query: Option<string>): string
  {
    if query.Some? then "?" + query.value else ""
  }

  function ParamsFor(query: Option<string>): Option<map<string, string>>
  {
    if query.Some? then Some(ParamsOf(Split(query.value, "&"))) else None
  }

  /** An address with a ':' is kept; one without gets the default port. */
  lemma WithPortAppends(addr: string)
    ensures WithPort(addr) == if ':' in addr then addr else addr + ":3306"
  {
    ContainsChar(addr, ':');
  }

  /** Separating the parameters: the text before the first '?' and the parameters after it. */
  lemma SplitQuery(pre: string, query: Option<string>)
    requires '?' !in pre
    ensures SplitParams(pre + Suffix(query)) == (pre, ParamsFor(query))
  {
    if query.Some? {
      assert pre + Suffix(query) == pre + "?" + query.value;
      SplitNAfter(pre, "?", query.value, 2);
      assert SplitN(query.value, "?", 1) == [query.value];
    } else {
      assert pre + Suffix(query) == pre;
      SplitNWithout(pre, "?", 2);
    }
  }

  /** There are parameters, nil or not, exactly when the name holds a '?'; they are read
      from the text after the first one. */
  lemma ParamsIffQuery(uri: string)
    ensures ParseDSN(uri).value.params.Some? <==> '?' in uri
    ensures '?' in uri ==>
      exists pre, q ::
        && uri == pre + "?" + q && '?' !in pre
        && ParseDSN(uri).value.params == Some(ParamsOf(Split(q, "&")))
  {
    ContainsChar(uri, '?');
    var q := SplitN(uri, "?", 2);
    if '?' in uri {
      assert |q| == 2;
      assert uri == q[0] + "?" + q[1];
      ContainsChar(q[0], '?');
    } else {
      assert |q| == 1;
    }
  }

  /** The protocol before a "://" when it holds no ':'. */
  lemma ProtoPrefix(proto: string, rest: string)
    requires ':' !in proto
    ensures SplitProto(proto + "://" + rest) == (true, proto, rest)
  {
    SplitNAfter(proto, "://", rest, 2);
    assert SplitN(rest, "://", 1) == [rest];
  }

  /** Parts without '/' joined by '/' split back into those parts; the fourth part keeps
      any '/' it holds. */
  lemma FourParts(a: string, b: string, c: string, d: string)
    requires '/' !in a && '/' !in b && '/' !in c
    ensures SplitN(a + "/" + b + "/" + c + "/" + d, "/", 4) == [a, b, c, d]
  {
    var cd := c + "/" + d;
    var bcd := b + "/" + cd;
    assert a + "/" + b + "/" + c + "/" + d == a + "/" + bcd;
    SplitNAfter(c, "/", d, 2);
    SplitNAfter(b, "/", cd, 3);
    SplitNAfter(a, "/", bcd, 4);
    Prepend(c, [d], [c, d]);
    Prepend(b, [c, d], [b, c, d]);
    Prepend(a, [b, c, d], [a, b, c, d]);
  }

  /** A part in front of a list of parts. */
  lemma Prepend(x: string, xs: seq<string>, ys: seq<string>)
    requires ys != [] && ys[0] == x && ys[1..] == xs
    ensures [x] + xs == ys
  {
  }

  lemma ThreeParts(a: string, b: string, c: string)
    requires '/' !in a && '/' !in b && '/' !in c
    ensures SplitN(a + "/" + b + "/" + c, "/", 4) == [a, b, c]
  {
    assert a + "/" + b + "/" + c == a + "/" + (b + "/" + c);
    SplitNAfter(a, "/", b + "/" + c, 4);
    SplitNAfter(b, "/", c, 3);
    SplitNWithout(c, "/", 2);
    Prepend(b, [c], [b, c]);
    Prepend(a, [b, c], [a, b, c]);
  }

  lemma TwoParts(a: string, b: string)
    requires '/' !in a && '/' !in b
    ensures SplitN(a + "/" + b, "/", 4) == [a, b]
  {
    SplitNAfter(a, "/", b, 4);
    SplitNWithout(b, "/", 3);
  }

  /** `PROTO://ADDR/DBNAME/USER/PASSWD[?PARAMS]`: every field read back, the password
      decoded, and the default port added to an address without one.  The password may
      hold further '/'s: splitting stops at four parts. */
  lemma FullForm(proto: string, addr: string, db: string, user: string, e: string, query: Option<string>)
    requires ':' !in proto && '?' !in proto
    requires '/' !in addr && '?' !in addr
    requires '/' !in db && '?' !in db
    requires '/' !in user && '?' !in user
    requires '?' !in e
    ensures ParseDSN(proto + "://" + addr + "/" + db + "/" + user + "/" + e + Suffix(query))
      == Ok(DSN(proto, WithPort(addr), db, user, Unstar(e), ParamsFor(query)))
  {
    var rest := addr + "/" + db + "/" + user + "/" + e;
    var pre := proto + "://" + rest;
    assert proto + "://" + addr + "/" + db + "/" + user + "/" + e == pre;
    SplitQuery(pre, query);
    ProtoPrefix(proto, rest);
    FourParts(addr, db, user, e);
  }

  /** `PROTO://ADDR/DBNAME/USER[?PARAMS]`: no password. */
  lemma ProtoWithoutPassword(proto: string, addr: string, db: string, user: string, query: Option<string>)
    requires ':' !in proto && '?' !in proto
    requires '/' !in addr && '?' !in addr
    requires '/' !in db && '?' !in db
    requires '/' !in user && '?' !in user
    ensures ParseDSN(proto + "://" + addr + "/" + db + "/" + user + Suffix(query))
      == Ok(DSN(proto, WithPort(addr), db, user, "", ParamsFor(query)))
  {
    var rest := addr + "/" + db + "/" + user;
    var pre := proto + "://" + rest;
    assert proto + "://" + addr + "/" + db + "/" + user == pre;
    SplitQuery(pre, query);
    ProtoPrefix(proto, rest);
    ThreeParts(addr, db, user);
  }

  /** A text in which no ':' is followed by a '/' holds no "://". */
  lemma NoProto(x: string)
    requires forall j :: 0 <= j < |x| - 1 ==> x[j] == ':' ==> x[j + 1] != '/'
    ensures SplitProto(x) == (false, DefaultProto, x)
  {
    IndexWithoutPair(x, "://");
  }

  /** `DBNAME/USER/PASSWD[?PARAMS]`: the local server on the default protocol. */
  lemma LocalForm(db: string, user: string, e: string, query: Option<string>)
    requires '/' !in db && '?' !in db && ':' !in db
    requires '/' !in user && '?' !in user && ':' !in user
    requires '/' !in e && '?' !in e
    ensures ParseDSN(db + "/" + user + "/" + e + Suffix(query))
      == Ok(DSN(DefaultProto, DefaultAddr, db, user, Unstar(e), ParamsFor(query)))
  {
    var pre := db + "/" + user + "/" + e;
    SplitQuery(pre, query);
    forall j | 0 <= j < |pre| - 1
      ensures pre[j] == ':' ==> pre[j + 1] != '/'
    {
      if j < |db| {
        assert pre[j] == db[j];
      } else if j < |db| + 1 + |user| {
        assert j == |db| || pre[j] == user[j - |db| - 1];
      } else if j > |db| + 1 + |user| {
        assert pre[j + 1] == e[j + 1 - |db| - |user| - 2];
      }
    }
    NoProto(pre);
    ThreeParts(db, user, e);
  }

  /** `DBNAME[?PARAMS]` and `DBNAME/USER[?PARAMS]`. */
  lemma ShortForms(db: string, user: string, query: Option<string>)
    requires '/' !in db && '?' !in db && ':' !in db
    requires '/' !in user && '?' !in user && ':' !in user
    ensures ParseDSN(db + Suffix(query)) == Ok(DSN(DefaultProto, DefaultAddr, db, "", "", ParamsFor(query)))
    ensures ParseDSN(db + "/" + user + Suffix(query))
      == Ok(DSN(DefaultProto, DefaultAddr, db, user, "", ParamsFor(query)))
  {
    SplitQuery(db, query);
    IndexWithoutFirst(db, "://");
    var pre := db + "/" + user;
    SplitQuery(pre, query);
    IndexWithoutFirst(pre, "://");
    SplitNWithout(db, "/", 4);
    TwoParts(db, user);
  }
}
