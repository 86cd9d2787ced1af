/** Password scrambling of package native (native/passwd.go): the mysql_native_password token,
    the pre-4.1 hash of libmysql's password.c, and the old-password answer.  SHA1 is a
    function parameter: every property below holds of any hash function with 20-byte digests. */
module NativePasswd {
  import opened Wrappers
  import opened Bytes
  import opened Errors
  import opened Consts

  // ---------------------------------------------------------------- mysql_native_password

  /** Exclusive or of the k low-order bits of a and b. */
  function XorBits(a: nat, b: nat, k: nat): (r: nat)
    ensures r < Pow2(k)
    decreases k
  {
    if k == 0 then 0 else 2 * XorBits(a / 2, b / 2, k - 1) + (if a % 2 == b % 2 then 0 else 1)
  }

  lemma Pow2Values()
    ensures Pow2(8) == 0x100 && Pow2(32) == 0x1_0000_0000
  {
    assert Pow2(8) == 0x100;
    assert Pow2(16) == 0x1_0000 by { assert Pow2(16) == 0x100 * Pow2(8); }
    assert Pow2(24) == 0x100_0000 by { Pow2Eight(16); }
    assert Pow2(32) == 0x1_0000_0000 by { Pow2Eight(24); }
  }

  lemma {:induction false} Pow2Eight(k: nat)
    ensures Pow2(k + 8) == 0x100 * Pow2(k)
  {
    if k > 0 {
      Pow2Eight(k - 1);
      assert Pow2(k + 8) == 2 * Pow2(k - 1 + 8);
    } else {
      assert Pow2(8) == 0x100;
    }
  }

  /** Xor-ing twice with the same value gives the first value back. */
  lemma {:induction false} XorTwice(a: nat, b: nat, k: nat)
    requires a < Pow2(k)
    ensures XorBits(XorBits(a, b, k), b, k) == a
    decreases k
  {
    if k > 0 {
      XorTwice(a / 2, b / 2, k - 1);
    }
  }

  lemma {:induction false} XorCommutes(a: nat, b: nat, k: nat)
    ensures XorBits(a, b, k) == XorBits(b, a, k)
    decreases k
  {
    if k > 0 {
      XorCommutes(a / 2, b / 2, k - 1);
    }
  }

  /** Go's `^` on two bytes. */
  function Xor(a: Byte, b: Byte): (c: Byte)
  {
    Pow2Values();
    XorBits(a, b, 8)
  }

  /** Byte-wise xor undoes itself and does not depend on the order of its operands. */
  lemma XorInverse(a: Byte, b: Byte)
    ensures Xor(Xor(a, b), b) == a && Xor(a, b) == Xor(b, a)
  {
    Pow2Values();
    XorTwice(a, b, 8);
    XorCommutes(a, b, 8);
  }

  /** The first n bytes of a, each xor-ed with the byte of b at the same index. */
  function XorBytes(a: seq<Byte>, b: seq<Byte>, n: nat): (r: seq<Byte>)
    requires n <= |a| && n <= |b|
    ensures |r| == n && forall i :: 0 <= i < n ==> r[i] == Xor(a[i], b[i])
  {
    seq(n, i requires 0 <= i < n => Xor(a[i], b[i]))
  }

  /** The token: SHA1(scramble + SHA1(SHA1(password))) xor SHA1(password), one byte per byte
      of the scramble; a scramble longer than a digest runs off its end. */
  function TokenSpec(password: seq<Byte>, scramble: seq<Byte>, sha1: seq<Byte> -> seq<Byte>): (r: Result<seq<Byte>, Error>)
    ensures r.Err? <==> |scramble| > |sha1(password)| || |scramble| > |sha1(scramble + sha1(sha1(password)))|
    ensures r.Err? ==> r.error == IndexOutOfRange
    ensures r.Ok? ==> |r.value| == |scramble|
  {
    var stg1 := sha1(password);
    var stg3 := sha1(scramble + sha1(stg1));
    if |scramble| > |stg3| || |scramble| > |stg1| then Err(IndexOutOfRange)
    else Ok(XorBytes(stg3, stg1, |scramble|))
  }

  /** encryptedPasswd: nothing for an empty password, else the token. */
  function EncryptedSpec(password: seq<Byte>, scramble: seq<Byte>, sha1: seq<Byte> -> seq<Byte>): (r: Result<seq<Byte>, Error>)
    ensures password == [] ==> r == Ok([])
    ensures password != [] ==> r == TokenSpec(password, scramble, sha1)
  {
    if |password| == 0 then Ok([]) else TokenSpec(password, scramble, sha1)
  }

  /** encryptedPasswd, with its loop over the scramble. */
  method EncryptedPasswd(password: seq<Byte>, scramble: seq<Byte>, sha1: seq<Byte> -> seq<Byte>) returns (r: Result<seq<Byte>, Error>)
    ensures r == EncryptedSpec(password, scramble, sha1)
  {
    if |password| == 0 {
      return Ok([]);
    }
    var stg1Hash := sha1(password);
    var stg2Hash := sha1(stg1Hash);
    var stg3Hash := sha1(scramble + stg2Hash);
    r := XorLoop(stg3Hash, stg1Hash, |scramble|);
  }

  /** The loop of encryptedPasswd: out[ii] = stg3Hash[ii] ^ stg1Hash[ii] for every index of
      the scramble, running off the end of a digest that is too short. */
  method XorLoop(stg3Hash: seq<Byte>, stg1Hash: seq<Byte>, n: nat) returns (r: Result<seq<Byte>, Error>)
    ensures n <= |stg3Hash| && n <= |stg1Hash| ==> r == Ok(XorBytes(stg3Hash, stg1Hash, n))
    ensures !(n <= |stg3Hash| && n <= |stg1Hash|) ==> r == Err(IndexOutOfRange)
  {
    var out := new Byte[n];
    for ii := 0 to n
      invariant ii <= |stg3Hash| && ii <= |stg1Hash|
      invariant forall j :: 0 <= j < ii ==> out[j] == Xor(stg3Hash[j], stg1Hash[j])
    {
      if ii >= |stg3Hash| || ii >= |stg1Hash| {
        return Err(IndexOutOfRange);
      }
      out[ii] := Xor(stg3Hash[ii], stg1Hash[ii]);
    }
    assert out[..] == XorBytes(stg3Hash, stg1Hash, n);
    r := Ok(out[..]);
  }

  /** What the server does with the token: it stores SHA1(SHA1(password)), xors the token with
      SHA1(scramble + stored) and gets SHA1(password) back, whose SHA1 is what it stored. */
  lemma ServerRecovers(password: seq<Byte>, scramble: seq<Byte>, sha1: seq<Byte> -> seq<Byte>)
    requires password != [] && |scramble| == 20
    requires |sha1(password)| == 20 && |sha1(scramble + sha1(sha1(password)))| == 20
    ensures var stored := sha1(sha1(password));
      var token := EncryptedSpec(password, scramble, sha1);
      && token.Ok?
      && XorBytes(token.value, sha1(scramble + stored), 20) == sha1(password)
      && sha1(XorBytes(token.value, sha1(scramble + stored), 20)) == stored
  {
    var stage1 := sha1(password);
    var stg3 := sha1(scramble + sha1(stage1));
    var token := XorBytes(stg3, stage1, 20);
    assert EncryptedSpec(password, scramble, sha1) == Ok(token);
    var back := XorBytes(token, stg3, 20);
    forall i | 0 <= i < 20
      ensures back[i] == stage1[i]
    {
      XorInverse(stage1[i], stg3[i]);
      XorInverse(stg3[i], stage1[i]);
    }
    assert back == stage1;
  }

  // ---------------------------------------------------------------- hash_password

  /** uint32 arithmetic: every result taken modulo 2^32. */
  function Add32(a: U32, b: U32): U32 { (a + b) % 0x1_0000_0000 }
  function Mul32(a: U32, b: U32): U32 { (a * b) % 0x1_0000_0000 }
  function Shl8(a: U32): U32 { (a * 0x100) % 0x1_0000_0000 }

  function Xor32(a: U32, b: U32): U32
  {
    Pow2Values();
    XorBits(a, b, 32)
  }

  /** The three uint32 accumulators of hash_password. */
  datatype HashState = HashState(nr: U32, add: U32, nr2: U32)

  const HashStart := HashState(1345345333, 7, 0x1234_5671)

  /** Spaces and tabs take no part in the hash. */
  predicate Blank(c: Byte)
  {
    c == 32 || c == 9
  }

  /** One byte of the password; `nr & 63` is `nr % 64`. */
  function HashStep(st: HashState, c: Byte): HashState
  {
    if Blank(c) then st
    else
      var tmp := c;
      var nr := Xor32(st.nr, Add32(Mul32(Add32(st.nr % 64, st.add), tmp), Shl8(st.nr)));
      HashState(nr, Add32(st.add, tmp), Add32(st.nr2, Xor32(Shl8(st.nr2), nr)))
  }

  /** The accumulators after the whole password, folded from the left. */
  function HashFold(password: seq<Byte>): HashState
    decreases |password|
  {
    if password == [] then HashStart
    else HashStep(HashFold(password[..|password| - 1]), password[|password| - 1])
  }

  /** The result: both accumulators without their sign bit, `x & (1<<31 - 1)`. */
  function HashResult(st: HashState): (r: (U32, U32))
    ensures r.0 < 0x8000_0000 && r.1 < 0x8000_0000
    ensures st.nr < 0x8000_0000 ==> r.0 == st.nr
    ensures st.nr2 < 0x8000_0000 ==> r.1 == st.nr2
  {
    (st.nr % 0x8000_0000, st.nr2 % 0x8000_0000)
  }

  /** hash_password. */
  method HashPassword(password: seq<Byte>) returns (result: (U32, U32))
    ensures result == HashResult(HashFold(password))
  {
    var nr: U32, add: U32, nr2: U32 := 1345345333, 7, 0x1234_5671;
    for ii := 0 to |password|
      invariant HashState(nr, add, nr2) == HashFold(password[..ii])
    {
      assert password[..ii + 1][..ii] == password[..ii];
      var c := password[ii];
      if c == 32 || c == 9 {
        continue;
      }
      var tmp: U32 := c;
      nr := Xor32(nr, Add32(Mul32(Add32(nr % 64, add), tmp), Shl8(nr)));
      nr2 := Add32(nr2, Xor32(Shl8(nr2), nr));
      add := Add32(add, tmp);
    }
    assert password[..|password|] == password;
    result := (nr % 0x8000_0000, nr2 % 0x8000_0000);
  }

  /** The password without its spaces and tabs. */
  function Unblanked(password: seq<Byte>): (r: seq<Byte>)
    ensures |r| <= |password| && forall i :: 0 <= i < |r| ==> !Blank(r[i])
    decreases |password|
  {
    if password == [] then []
    else
      var c := password[|password| - 1];
      Unblanked(password[..|password| - 1]) + (if Blank(c) then [] else [c])
  }

  /** Spaces and tabs anywhere in the password leave the hash as it is without them. */
  lemma {:induction false} HashIgnoresBlanks(password: seq<Byte>)
    ensures HashFold(password) == HashFold(Unblanked(password))
    decreases |password|
  {
    if password != [] {
      var init, c := password[..|password| - 1], password[|password| - 1];
      HashIgnoresBlanks(init);
      if Blank(c) {
        assert Unblanked(init) + [] == Unblanked(init);
      } else {
        var u := Unblanked(init);
        assert (u + [c])[..|u + [c]| - 1] == u;
      }
    }
  }

  /** The empty password, and one made only of blanks, hash to the starting constants. */
  lemma BlankPassword(password: seq<Byte>)
    requires forall i :: 0 <= i < |password| ==> Blank(password[i])
    ensures HashResult(HashFold(password)) == (1345345333, 0x1234_5671)
  {
    HashIgnoresBlanks(password);
    NoneLeft(password);
  }

  lemma {:induction false} NoneLeft(password: seq<Byte>)
    requires forall i :: 0 <= i < |password| ==> Blank(password[i])
    ensures Unblanked(password) == []
    decreases |password|
  {
    if password != [] {
      NoneLeft(password[..|password| - 1]);
    }
  }

  // ---------------------------------------------------------------- mysql_old_password

  /** encryptedOldPassword answers with nothing, whatever the password. */
  function EncryptedOldPassword(password: seq<Byte>, scramble: seq<Byte>): (out: seq<Byte>)
    ensures |out| == 0
  {
    []
  }
}
