/** `SCRAMOperations`: the hash-based functions of section 2.2 of RFC 5802. */
module ScramOperations {
  import opened Wrappers
  import opened Octets
  import opened ScramMessages

  /** The hash, the HMAC and the base64 codec, as functions with a few known facts. */
  datatype Primitives = Primitives(
    digestSize: nat,
    H: Bytes -> Bytes,
    Hmac: (Bytes, Bytes) -> Bytes,
    Encode: Bytes -> Bytes,
    Decode: Bytes -> Option<Bytes>)
  {
    ghost predicate Valid() {
      && digestSize > 0
      && (forall s :: |H(s)| == digestSize)
      && (forall k, s :: |Hmac(k, s)| == digestSize)
      && (forall s :: Decode(Encode(s)) == Some(s))
      && (forall s :: s != [] ==> IsField(Encode(s), IsBase64Char))
      && Encode([]) == []
    }

    /** `U1`, `U2`, ... of section 2.2. */
    function U(str: Bytes, salt: Bytes, j: nat): Bytes {
      if j <= 1 then Hmac(str, salt + "\0\0\0\U{0001}") else Hmac(str, U(str, salt, j - 1))
    }

    /** `Hi(str, salt, i) := U1 XOR U2 XOR ... XOR Ui`; just `U1` when `i` is less than one. */
    function Hi(str: Bytes, salt: Bytes, i: int): Bytes
      decreases if i < 0 then 0 else i
    {
      if i <= 1 then U(str, salt, 1) else Xor(Hi(str, salt, i - 1), U(str, salt, i))
    }

    lemma {:induction false} HiLength(str: Bytes, salt: Bytes, i: int)
      requires Valid()
      ensures |Hi(str, salt, i)| == digestSize
      decreases if i < 0 then 0 else i
    {
      if i > 1 {
        HiLength(str, salt, i - 1);
      }
    }

    /** Every `Uj` is the HMAC of the one before, the first that of the salt and the number one; their
        XOR is the result. */
    lemma {:induction false} HiChain(str: Bytes, salt: Bytes, i: int) returns (us: seq<Bytes>)
      ensures |us| == (if i < 1 then 1 else i) && us[0] == Hmac(str, salt + "\0\0\0\U{0001}")
      ensures forall j :: 0 < j < |us| ==> us[j] == Hmac(str, us[j - 1])
      ensures Hi(str, salt, i) == XorAll(us)
      decreases if i < 0 then 0 else i
    {
      if i <= 1 {
        us := [U(str, salt, 1)];
      } else {
        var init := HiChain(str, salt, i - 1);
        LastOfChain(str, salt, init);
        us := init + [U(str, salt, i)];
        assert us[..|us| - 1] == init;
      }
    }

    lemma {:induction false} LastOfChain(str: Bytes, salt: Bytes, us: seq<Bytes>)
      requires |us| > 0 && us[0] == Hmac(str, salt + "\0\0\0\U{0001}")
      requires forall j :: 0 < j < |us| ==> us[j] == Hmac(str, us[j - 1])
      ensures us[|us| - 1] == U(str, salt, |us|)
    {
      if |us| > 1 {
        LastOfChain(str, salt, us[..|us| - 1]);
      }
    }

    /** The source's loop over `range(2, i + 1)`. */
    method ComputeHi(str: Bytes, salt: Bytes, i: int) returns (result: Bytes)
      ensures result == Hi(str, salt, i)
    {
      var uj := Hmac(str, salt + "\0\0\0\U{0001}");
      result := uj;
      var j := 2;
      while j < i + 1
        invariant 2 <= j && (j <= i + 1 || i <= 1)
        invariant uj == U(str, salt, j - 1)
        invariant result == Hi(str, salt, if i <= 1 then i else j - 1)
      {
        uj := Hmac(str, uj);
        result := Xor(result, uj);
        j := j + 1;
      }
    }

    // ---- Quantities both sides derive ----------------------------------------

    function ClientKey(salted: Bytes): Bytes { Hmac(salted, "Client Key") }

    function StoredKey(salted: Bytes): Bytes { H(ClientKey(salted)) }

    function ServerKey(salted: Bytes): Bytes { Hmac(salted, "Server Key") }

    function ClientProof(salted: Bytes, authMessage: Bytes): Bytes {
      Xor(ClientKey(salted), Hmac(StoredKey(salted), authMessage))
    }
  }

  // ---- The known facts are consistent ----------------------------------------

  /** Two letters for each octet. */
  function Hex(s: Bytes): (r: Bytes)
    ensures forall i :: 0 <= i < |r| ==> 'a' <= r[i] <= 'p'
  {
    if s == [] then [] else HexOctet(s[0]) + Hex(s[1..])
  }

  function HexOctet(c: Octet): (r: Bytes)
    ensures |r| == 2 && 'a' <= r[0] <= 'p' && 'a' <= r[1] <= 'p'
    ensures (r[0] as int - 'a' as int) * 16 + (r[1] as int - 'a' as int) == c as int
  {
    [(c as int / 16 + 'a' as int) as char, (c as int % 16 + 'a' as int) as char]
  }

  function Unhex(s: Bytes): Option<Bytes> {
    if s == [] then Some([])
    else if |s| >= 2 && 'a' <= s[0] <= 'p' && 'a' <= s[1] <= 'p' then
      var rest :- Unhex(s[2..]);
      Some([((s[0] as int - 'a' as int) * 16 + (s[1] as int - 'a' as int)) as char] + rest)
    else None
  }

  lemma {:induction false} HexRoundTrip(s: Bytes)
    ensures Unhex(Hex(s)) == Some(s)
  {
    hide HexOctet, Unhex;
    if |s| == 0 {
      UnhexNothing(Hex(s));
    }
    if s != [] {
      HexRoundTrip(s[1..]);
      UnhexFirst(s[0], Hex(s[1..]));
      assert s == [s[0]] + s[1..];
    }
  }

  lemma UnhexNothing(s: Bytes)
    requires |s| == 0
    ensures Unhex(s) == Some(s)
  {
  }

  lemma UnhexFirst(c: Octet, rest: Bytes)
    requires Unhex(rest).Some?
    ensures Unhex(HexOctet(c) + rest) == Some([c] + Unhex(rest).value)
  {
    hide HexOctet, Unhex;
    var h := HexOctet(c);
    assert (h + rest)[2..] == rest && (h + rest)[0] == h[0] && (h + rest)[1] == h[1];
    UnhexStep(h + rest, c);
  }

  lemma UnhexStep(s: Bytes, c: Octet)
    requires |s| >= 2 && 'a' <= s[0] <= 'p' && 'a' <= s[1] <= 'p' && Unhex(s[2..]).Some?
    requires (s[0] as int - 'a' as int) * 16 + (s[1] as int - 'a' as int) == c as int
    ensures Unhex(s) == Some([c] + Unhex(s[2..]).value)
  {
  }

  /** Some primitives have all the facts that the other results rely on. */
  lemma FactsAreConsistent() returns (ops: Primitives)
    ensures ops.Valid()
  {
    ops := Primitives(1, s => ['x'], (k, s) => ['x'], Hex, Unhex);
    forall s: Bytes ensures Unhex(Hex(s)) == Some(s) && (s != [] ==> IsField(Hex(s), IsBase64Char)) {
      HexRoundTrip(s);
      FieldIsAll(Hex(s), IsBase64Char);
    }
  }

  /** `U1 XOR U2 XOR ... XOR Ui` */
  function XorAll(us: seq<Bytes>): Bytes
    requires |us| > 0
  {
    if |us| == 1 then us[0] else Xor(XorAll(us[..|us| - 1]), us[|us| - 1])
  }

  function AuthMessage(bare: Bytes, serverFirst: Bytes, withoutProof: Bytes): Bytes {
    bare + "," + serverFirst + "," + withoutProof
  }

  datatype ScramError =
    | BadChallenge
    | ServerScramError
    | BadSuccess
    | NotAuthorized
    | NoChannelBindingData  // ValueError of the client's start
    | Base64Error           // binascii.Error
    | PythonError           // TypeError and the like, from an attribute that is still None
}
