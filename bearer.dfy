/**
  How the profile action turns an Authorization header into a token: it
  replaces every occurrence of "Bearer " by nothing, anywhere in the header,
  the way an ordinal string replacement does (scan left to right, remove each
  non-overlapping occurrence).
 */
module Bearer {

  const Prefix: string := "Bearer "

  /** The header with every non-overlapping occurrence of `Prefix` removed. */
  function StripAll(s: string): (r: string)
    ensures |r| <= |s|
    ensures forall c :: c in r ==> c in s
    decreases |s|
  {
    if s == [] then []
    else if Prefix <= s then StripAll(s[|Prefix|..])
    else [s[0]] + StripAll(s[1..])
  }

  /** `Prefix` written `k` times in a row. */
  function Repeated(k: nat): (r: string)
    ensures |r| == k * |Prefix|
  {
    if k == 0 then [] else Prefix + Repeated(k - 1)
  }

  lemma {:induction false} RepeatedStripsToEmpty(k: nat)
    ensures StripAll(Repeated(k)) == []
  {
    if k > 0 {
      var s := Repeated(k);
      assert Prefix <= s;
      assert s[|Prefix|..] == Repeated(k - 1);
      RepeatedStripsToEmpty(k - 1);
    }
  }

  lemma {:induction false} StripsToEmptyIsRepeated(s: string)
    requires StripAll(s) == []
    ensures exists k: nat :: s == Repeated(k)
    decreases |s|
  {
    if s == [] {
      assert s == Repeated(0);
    } else if Prefix <= s {
      StripsToEmptyIsRepeated(s[|Prefix|..]);
      var k: nat :| s[|Prefix|..] == Repeated(k);
      assert s == Prefix + s[|Prefix|..];
      assert s == Repeated(k + 1);
    } else {
      assert false;
    }
  }

  /**
    The header leaves nothing behind (the "missing token" case) exactly when it
    is empty or consists only of copies of "Bearer ".
   */
  lemma StripsToEmptyIff(s: string)
    ensures StripAll(s) == [] <==> exists k: nat :: s == Repeated(k)
  {
    if StripAll(s) == [] {
      StripsToEmptyIsRepeated(s);
    }
    if exists k: nat :: s == Repeated(k) {
      var k: nat :| s == Repeated(k);
      RepeatedStripsToEmpty(k);
    }
  }

  /** A string without a space holds no occurrence of "Bearer " and is kept whole. */
  lemma {:induction false} StripKeepsSpaceFree(t: string)
    requires ' ' !in t
    ensures StripAll(t) == t
    decreases |t|
  {
    if t != [] {
      assert Prefix[6] == ' ';
      StripKeepsSpaceFree(t[1..]);
      assert t == [t[0]] + t[1..];
    }
  }

  /**
    A well-formed header "Bearer <token>", whose token has no space (a compact
    signed token is base64url segments joined by dots), yields that token.
   */
  lemma StandardHeaderYieldsToken(t: string)
    requires ' ' !in t
    ensures StripAll(Prefix + t) == t
  {
    assert Prefix <= Prefix + t;
    assert (Prefix + t)[|Prefix|..] == t;
    StripKeepsSpaceFree(t);
  }
}
