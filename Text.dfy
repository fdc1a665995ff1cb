/** Byte strings as the PHP runtime of the REPL sees them: one byte per unit,
    `ctype_cntrl` in the C locale and the default character set of `trim`. */
module Text {

  type Byte = b: int | 0 <= b < 256
  type Bytes = seq<Byte>

  /** `ctype_cntrl` on a one-byte string in the C locale: 0x00-0x1F and DEL. */
  predicate IsControl(b: Byte) {
    b < 0x20 || b == 0x7F
  }

  /** The bytes `trim` strips by default: space, tab, LF, CR, NUL and vertical tab. */
  predicate IsTrimSpace(b: Byte) {
    b == 0x20 || b == 0x09 || b == 0x0A || b == 0x0D || b == 0x00 || b == 0x0B
  }

  /** Dropping `a` bytes and then `b` more drops `a + b`. */
  lemma DropDrop(s: Bytes, a: nat, b: nat)
    requires a + b <= |s|
    ensures s[a..][b..] == s[a + b..]
  {
  }

  /** `ltrim`: drop trim-space bytes from the front. */
  function TrimStart(s: Bytes): (r: Bytes)
    ensures |r| <= |s|
  {
    if s != [] && IsTrimSpace(s[0]) then TrimStart(s[1..]) else s
  }

  /** `rtrim`: drop trim-space bytes from the back. */
  function TrimEnd(s: Bytes): (r: Bytes)
    ensures |r| <= |s|
  {
    if s != [] && IsTrimSpace(s[|s| - 1]) then TrimEnd(s[..|s| - 1]) else s
  }

  /** PHP's `trim`: what is left neither starts nor ends with a trim-space byte,
      and is empty only when every byte was trim-space (`TrimSpec` says exactly
      what is removed). */
  function Trim(s: Bytes): (r: Bytes)
    ensures |r| <= |s|
    ensures r != [] ==> !IsTrimSpace(r[0]) && !IsTrimSpace(r[|r| - 1])
  {
    TrimStartSpec(s);
    TrimEndSpec(TrimStart(s));
    TrimEnd(TrimStart(s))
  }

  /** `ltrim` removes exactly the run of trim-space bytes at the front. */
  lemma {:induction false} TrimStartSpec(s: Bytes)
    ensures var r := TrimStart(s);
      && r == s[|s| - |r|..]
      && (forall i :: 0 <= i < |s| - |r| ==> IsTrimSpace(s[i]))
      && (r != [] ==> !IsTrimSpace(r[0]))
  {
    if s != [] && IsTrimSpace(s[0]) {
      TrimStartSpec(s[1..]);
    }
  }

  /** `rtrim` removes exactly the run of trim-space bytes at the back. */
  lemma {:induction false} TrimEndSpec(s: Bytes)
    ensures var r := TrimEnd(s);
      && r == s[..|r|]
      && (forall i :: |r| <= i < |s| ==> IsTrimSpace(s[i]))
      && (r != [] ==> !IsTrimSpace(r[|r| - 1]))
  {
    if s != [] && IsTrimSpace(s[|s| - 1]) {
      TrimEndSpec(s[..|s| - 1]);
    }
  }

  /** The trim of `s` is the slice `s[k..k + |r|]` left once the trim-space bytes
      before `k` and from `k + |r|` on are gone, and it neither starts nor ends with
      a trim-space byte; it is empty exactly when every byte is trim-space. */
  lemma TrimSpec(s: Bytes)
    ensures var r, k := Trim(s), |s| - |TrimStart(s)|;
      && k + |r| <= |s|
      && r == s[k..k + |r|]
      && (forall i :: 0 <= i < k ==> IsTrimSpace(s[i]))
      && (forall i :: k + |r| <= i < |s| ==> IsTrimSpace(s[i]))
      && (r != [] ==> !IsTrimSpace(r[0]) && !IsTrimSpace(r[|r| - 1]))
      && (r == [] <==> forall i :: 0 <= i < |s| ==> IsTrimSpace(s[i]))
  {
    var t := TrimStart(s);
    TrimStartSpec(s);
    TrimEndSpec(t);
    var r, k := Trim(s), |s| - |t|;
    assert r == t[..|r|];
    forall i | k + |r| <= i < |s| ensures IsTrimSpace(s[i]) {
      assert s[i] == t[i - k];
    }
    if r != [] {
      assert r[0] == t[0];
    } else {
      assert t == [];
    }
  }

  /** A string with no trim-space byte at either end is its own trim. */
  lemma TrimOfTrimmed(s: Bytes)
    requires s != [] ==> !IsTrimSpace(s[0]) && !IsTrimSpace(s[|s| - 1])
    ensures Trim(s) == s
  {
    if s != [] {
      assert TrimStart(s) == s;
      assert TrimEnd(s) == s;
    }
  }

  /** Trimming twice is trimming once. */
  lemma TrimIdempotent(s: Bytes)
    ensures Trim(Trim(s)) == Trim(s)
  {
    TrimSpec(s);
    TrimOfTrimmed(Trim(s));
  }
}
