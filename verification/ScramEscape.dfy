/** `SCRAMOperations.escape` and `unescape`: two whole-string replacements each, in opposite
    orders, for the `saslname` values of section 5.1 of RFC 5802. */
module ScramEscape {
  import opened Octets

  function Escape(data: Bytes): Bytes {
    Replace(Replace(data, "=", "=3D"), ",", "=2C")
  }

  function Unescape(data: Bytes): Bytes {
    Replace(Replace(data, "=2C", ","), "=3D", "=")
  }

  // ---- One-pass references -------------------------------------------------

  function EscapeOctet(c: Octet): Bytes {
    if c == '=' then "=3D" else if c == ',' then "=2C" else [c]
  }

  /** Every octet replaced on its own, in a single pass. */
  function EscapeEach(data: Bytes): Bytes {
    if data == [] then [] else EscapeOctet(data[0]) + EscapeEach(data[1..])
  }

  /** Every escape sequence decoded in a single left-to-right pass. */
  function UnescapeEach(data: Bytes): Bytes {
    if data == [] then []
    else if "=2C" <= data then "," + UnescapeEach(data[3..])
    else if "=3D" <= data then "=" + UnescapeEach(data[3..])
    else [data[0]] + UnescapeEach(data[1..])
  }

  /** A saslname as the grammar of section 7 of RFC 5802 has it: no comma, and an equals sign
      only as the start of an escape sequence. */
  ghost predicate IsSaslname(y: Bytes) {
    forall i :: 0 <= i < |y| ==>
      y[i] != ',' && (y[i] == '=' ==> "=2C" <= y[i..] || "=3D" <= y[i..])
  }

  lemma ReplaceSkips(c: Octet, s: Bytes, pattern: Bytes, replacement: Bytes)
    requires pattern != [] && c != pattern[0]
    ensures Replace([c] + s, pattern, replacement) == [c] + Replace(s, pattern, replacement)
  {
    assert ([c] + s)[1..] == s;
  }

  lemma ReplaceHits(c: Octet, s: Bytes, replacement: Bytes)
    ensures Replace([c] + s, [c], replacement) == replacement + Replace(s, [c], replacement)
  {
    assert ([c] + s)[1..] == s && [c] <= [c] + s;
  }

  lemma ReplaceCommas(e: Bytes)
    ensures Replace("=3D" + e, ",", "=2C") == "=3D" + Replace(e, ",", "=2C")
  {
    hide Replace;
    ReplaceSkips('D', e, ",", "=2C");
    ReplaceSkips('3', "D" + e, ",", "=2C");
    ReplaceSkips('=', "3D" + e, ",", "=2C");
    var r := Replace(e, ",", "=2C");
    assert "3" + ("D" + e) == "3D" + e && "=" + ("3D" + e) == "=3D" + e;
    assert "3" + ("D" + r) == "3D" + r && "=" + ("3D" + r) == "=3D" + r;
  }

  lemma {:induction false} EscapeIsOnePass(x: Bytes)
    ensures Escape(x) == EscapeEach(x)
  {
    if x != [] {
      hide Replace;
      var c, rest := x[0], x[1..];
      EscapeIsOnePass(rest);
      assert x == [c] + rest;
      var e := Replace(rest, "=", "=3D");
      if c == '=' {
        ReplaceHits('=', rest, "=3D");
        ReplaceCommas(e);
      } else {
        ReplaceSkips(c, rest, "=", "=3D");
        if c == ',' {
          ReplaceHits(',', e, "=2C");
        } else {
          ReplaceSkips(c, e, ",", "=2C");
        }
      }
    }
  }

  lemma {:induction false} UnescapeIsOnePass(y: Bytes)
    ensures Unescape(y) == UnescapeEach(y)
    decreases |y|
  {
    if y != [] {
      if "=2C" <= y {
        UnescapeIsOnePass(y[3..]);
        var e := Replace(y[3..], "=2C", ",");
        assert Replace(y, "=2C", ",") == "," + e && ("," + e)[1..] == e;
        assert ("," + e)[0] == ',';
      } else if "=3D" <= y {
        UnescapeIsOnePass(y[3..]);
        var e := Replace(y[3..], "=2C", ",");
        assert y[1] == '3' && y[2] == 'D';
        assert y[1..][1..] == y[2..] && y[2..][1..] == y[3..];
        assert Replace(y[2..], "=2C", ",") == "D" + e;
        assert Replace(y[1..], "=2C", ",") == "3D" + e;
        assert Replace(y, "=2C", ",") == "=3D" + e && ("=3D" + e)[3..] == e;
      } else {
        UnescapeIsOnePass(y[1..]);
        var e := Replace(y[1..], "=2C", ",");
        assert Replace(y, "=2C", ",") == [y[0]] + e && ([y[0]] + e)[1..] == e;
        if "=3D" <= [y[0]] + e {
          FirstPassMakesNoEscape(y);
          assert false;
        }
      }
    }
  }

  /** Decoding `=2C` first never creates a `=3D` that was not there. */
  lemma FirstPassMakesNoEscape(y: Bytes)
    requires y != [] && !("=2C" <= y) && "=3D" <= [y[0]] + Replace(y[1..], "=2C", ",")
    ensures "=3D" <= y
  {
    var e := Replace(y[1..], "=2C", ",");
    assert ([y[0]] + e)[0] == '=' && ([y[0]] + e)[1] == '3' && ([y[0]] + e)[2] == 'D';
    assert e[0] == '3' && e[1] == 'D';
    assert !("=2C" <= y[1..]) && e == [y[1]] + Replace(y[1..][1..], "=2C", ",");
    assert y[1..][1..] == y[2..];
    assert Replace(y[2..], "=2C", ",")[0] == 'D';
    assert !("=2C" <= y[2..]) && y[2] == 'D';
  }

  // ---- Main results --------------------------------------------------------

  lemma {:induction false} EscapeRoundTrip(x: Bytes)
    ensures Unescape(Escape(x)) == x
  {
    EscapeIsOnePass(x);
    UnescapeIsOnePass(EscapeEach(x));
    OnePassRoundTrip(x);
  }

  lemma {:induction false} OnePassRoundTrip(x: Bytes)
    ensures UnescapeEach(EscapeEach(x)) == x
  {
    if x != [] {
      OnePassRoundTrip(x[1..]);
      var e := EscapeEach(x[1..]);
      assert x == [x[0]] + x[1..];
      if x[0] == '=' {
        assert "=3D" <= "=3D" + e && ("=3D" + e)[3..] == e;
        assert ("=3D" + e)[1] == '3';
      } else if x[0] == ',' {
        assert "=2C" <= "=2C" + e && ("=2C" + e)[3..] == e;
      } else {
        assert ([x[0]] + e)[1..] == e;
      }
    }
  }

  lemma EscapeFirst(c: Octet, rest: Bytes)
    ensures EscapeEach([c] + rest) == EscapeOctet(c) + EscapeEach(rest)
  {
    assert ([c] + rest)[1..] == rest;
  }

  /** One of each. */
  lemma EscapeInstance()
    ensures Escape(",=") == "=2C=3D" && Unescape("=2C=3D") == ",="
  {
    var x: Bytes, last: Bytes, none: Bytes := ",=", "=", [];
    EscapeIsOnePass(x);
    EscapeRoundTrip(x);
    EscapeFirst('=', none);
    EscapeFirst(',', last);
    assert EscapeEach(none) == none;
    hide EscapeEach, Escape, Unescape;
    assert ['='] + none == last && [','] + last == x;
    assert "=3D" + none == "=3D" && "=2C" + "=3D" == "=2C=3D";
  }

  /** What `escape` produces is always a saslname, octet for octet. */
  lemma {:induction false} EscapeMakesSaslname(x: Bytes)
    ensures IsSaslname(EscapeEach(x))
  {
    if x != [] {
      EscapeMakesSaslname(x[1..]);
      var h, e := EscapeOctet(x[0]), EscapeEach(x[1..]);
      forall i | 0 <= i < |h + e|
        ensures (h + e)[i] != ',' && ((h + e)[i] == '=' ==> "=2C" <= (h + e)[i..] || "=3D" <= (h + e)[i..])
      {
        if i >= |h| {
          assert (h + e)[i..] == e[i - |h|..];
          assert (h + e)[i] == e[i - |h|];
        }
      }
    }
  }

  lemma {:induction false} SaslnameTail(y: Bytes, k: nat)
    requires IsSaslname(y) && k <= |y|
    ensures IsSaslname(y[k..])
  {
    forall i | 0 <= i < |y| - k
      ensures y[k..][i] != ',' && (y[k..][i] == '=' ==> "=2C" <= y[k..][i..] || "=3D" <= y[k..][i..])
    {
      assert y[k..][i] == y[k + i] && y[k..][i..] == y[k + i..];
    }
  }

  lemma {:induction false} SaslnameRoundTrip(y: Bytes)
    requires IsSaslname(y)
    ensures EscapeEach(UnescapeEach(y)) == y
    decreases |y|
  {
    if y != [] {
      assert y[0..] == y && y[0] != ',';
      var k := if y[0] == '=' then 3 else 1;
      SaslnameTail(y, k);
      SaslnameRoundTrip(y[k..]);
      var u := UnescapeEach(y);
      assert y == y[..k] + y[k..];
      assert u[1..] == UnescapeEach(y[k..]);
      assert EscapeOctet(u[0]) == y[..k];
    }
  }

  /** `escape` undoes `unescape` exactly on saslnames. */
  lemma UnescapeRoundTrip(y: Bytes)
    ensures Escape(Unescape(y)) == y <==> IsSaslname(y)
  {
    EscapeIsOnePass(Unescape(y));
    UnescapeIsOnePass(y);
    EscapeMakesSaslname(Unescape(y));
    if IsSaslname(y) {
      SaslnameRoundTrip(y);
    }
  }

  /** The escaped form holds no comma, so it is a single field of a message, and it is empty
      only for an empty value. */
  lemma EscapedIsOneField(x: Bytes)
    ensures ',' !in Escape(x)
    ensures Escape(x) == [] <==> x == []
  {
    EscapeIsOnePass(x);
    EscapeMakesSaslname(x);
  }
}
