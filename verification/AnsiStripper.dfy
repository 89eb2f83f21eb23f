/** The in-place removal of ANSI colour codes from the trace text (`get_debug_json` in `main.c`). */
module AnsiStripper {
  import opened Bytes

  const ESC: byte := 0x1B
  const LETTER_M: byte := 0x6D

  /** The first 'm' at or after a position. */
  function FirstM(s: seq<byte>, j: nat): (k: nat)
    requires j <= |s|
    ensures j <= k <= |s| && LETTER_M !in s[j..k]
    ensures k < |s| ==> s[k] == LETTER_M
    decreases |s| - j
  {
    if j == |s| || s[j] == LETTER_M then j
    else
      var k := FirstM(s, j + 1);
      assert s[j..k] == [s[j]] + s[j + 1..k];
      k
  }

  /** Every escape goes, together with what follows it up to the next 'm'; an escape without one stays. */
  function Stripped(s: seq<byte>): (t: seq<byte>)
    ensures |t| <= |s|
    decreases |s|
  {
    if s == [] then []
    else if s[0] == ESC && FirstM(s, 0) < |s| then Stripped(s[FirstM(s, 0) + 1..])
    else [s[0]] + Stripped(s[1..])
  }

  /** The inner search. */
  method Search(text: array<byte>, i: nat, tpos: nat) returns (j: nat)
    requires i <= tpos <= text.Length
    ensures i <= j <= tpos && j - i == FirstM(text[i..tpos], 0)
  {
    ghost var rest := text[i..tpos];
    j := i;
    while j < tpos && text[j] != LETTER_M
      invariant i <= j <= tpos
      invariant FirstM(rest, j - i) == FirstM(rest, 0)
    {
      j := j + 1;
    }
  }

  lemma NothingLeft()
    ensures Stripped([]) == []
  {
  }

  lemma Removed(rest: seq<byte>)
    requires rest != [] && rest[0] == ESC && FirstM(rest, 0) < |rest|
    ensures Stripped(rest) == Stripped(rest[FirstM(rest, 0) + 1..])
  {
  }

  lemma Kept(rest: seq<byte>, front: seq<byte>)
    requires rest != [] && !(rest[0] == ESC && FirstM(rest, 0) < |rest|)
    ensures front + Stripped(rest) == front + [rest[0]] + Stripped(rest[1..])
  {
  }

  /** `memmove` to the left inside one buffer. */
  method Move(a: array<byte>, to: nat, from: nat, n: nat)
    requires to <= from && from + n <= a.Length && n >= 1
    modifies a
    ensures a[to..to + n - 1] == old(a[from..from + n - 1]) && a[to + n - 1] == old(a[from + n - 1])
    ensures a[..to] == old(a[..to])
  {
    forall k | 0 <= k < n { a[to + k] := a[from + k]; }
  }

  /** The loop of `get_debug_json`: `text[..len]` is followed by its terminating zero and stays so. The index is
      stepped back and forward again over every removal. */
  method StripInPlace(text: array<byte>, len: nat) returns (tpos: nat)
    requires len < text.Length && text[len] == 0
    modifies text
    ensures tpos <= len && text[tpos] == 0
    ensures text[..tpos] == Stripped(old(text[..len]))
  {
    hide Stripped, FirstM;
    tpos := len;
    var i: int := 0;
    assert text[0..tpos] == text[..len];
    while i < tpos
      invariant 0 <= i <= tpos <= len && text[tpos] == 0
      invariant text[..i] + Stripped(text[i..tpos]) == Stripped(old(text[..len]))
      decreases tpos - i
    {
      ghost var rest := text[i..tpos];
      ghost var front := text[..i];
      var j := tpos;
      if text[i] == ESC {
        j := Search(text, i, tpos);
      }
      if j < tpos {
        Removed(rest);
        assert text[j + 1..tpos] == rest[j - i + 1..];
        Move(text, i, j + 1, tpos - j);
        tpos := tpos - (j + 1 - i);
        assert text[i..tpos] == rest[j - i + 1..];
        i := i - 1;
      } else {
        Kept(rest, front);
        assert text[i + 1..tpos] == rest[1..] && text[..i + 1] == front + [rest[0]];
      }
      i := i + 1;
    }
    assert text[i..tpos] == [];
    assert text[..i] + [] == text[..i];
    NothingLeft();
  }

  // ---------- What is removed ----------

  lemma {:induction false} FirstMAfter(b: seq<byte>, rest: seq<byte>)
    requires 0x6D !in b
    ensures FirstM(b + [0x6D] + rest, 0) == |b|
  {
    var s := b + [0x6D] + rest;
    assert s[|b|] == 0x6D;
    assert forall i :: 0 <= i < |b| ==> s[i] == b[i];
  }

  /** Text before the first escape (1B) stays, and from there to the next "m" (6D) everything goes. */
  lemma {:induction false} CodeRemoved(a: seq<byte>, b: seq<byte>, rest: seq<byte>)
    requires 0x1B !in a && 0x6D !in b
    ensures Stripped(a + ([0x1B] + b + [0x6D] + rest)) == a + Stripped(rest)
    decreases |a|
  {
    hide FirstM;
    var s := [0x1B] + b + [0x6D] + rest;
    if a == [] {
      assert s == ([0x1B] + b) + [0x6D] + rest;
      FirstMAfter([0x1B] + b, rest);
      Removed(s);
      assert s[|b| + 2..] == rest;
      assert a + s == s && a + Stripped(rest) == Stripped(rest);
    } else {
      assert (a + s)[0] == a[0] && (a + s)[1..] == a[1..] + s;
      CodeRemoved(a[1..], b, rest);
      assert a == [a[0]] + a[1..];
      assert Stripped(a + s) == [a[0]] + Stripped((a + s)[1..]);
    }
  }

  // ---------- What is left ----------

  lemma {:induction false} NothingNew(s: seq<byte>, b: byte)
    requires b !in s
    ensures b !in Stripped(s)
    decreases |s|
  {
    if s != [] {
      if s[0] == ESC && FirstM(s, 0) < |s| { NothingNew(s[FirstM(s, 0) + 1..], b); } else { NothingNew(s[1..], b); }
    }
  }

  /** No escape is followed by an 'm'. */
  predicate Clean(s: seq<byte>) { forall i :: 0 <= i < |s| && s[i] == ESC ==> LETTER_M !in s[i..] }

  lemma FirstMAbsent(s: seq<byte>)
    requires FirstM(s, 0) == |s|
    ensures LETTER_M !in s
  {
    assert s[0..|s|] == s;
  }

  lemma {:induction false} StrippedIsClean(s: seq<byte>)
    ensures Clean(Stripped(s))
    decreases |s|
  {
    if s != [] {
      if s[0] == ESC && FirstM(s, 0) < |s| {
        StrippedIsClean(s[FirstM(s, 0) + 1..]);
      } else {
        var t := Stripped(s[1..]);
        StrippedIsClean(s[1..]);
        if s[0] == ESC {
          FirstMAbsent(s);
          NothingNew(s, LETTER_M);
        }
        forall i | 0 <= i < |Stripped(s)| && Stripped(s)[i] == ESC ensures LETTER_M !in Stripped(s)[i..] {
          if i > 0 { assert Stripped(s)[i..] == t[i - 1..]; } else { assert Stripped(s)[0..] == Stripped(s); }
        }
      }
    }
  }

  lemma {:induction false} CleanIsKept(s: seq<byte>)
    requires Clean(s)
    ensures Stripped(s) == s
    decreases |s|
  {
    if s != [] {
      if s[0] == ESC {
        assert s[0..] == s;
        assert LETTER_M !in s;
      }
      forall i | 0 <= i < |s[1..]| && s[1..][i] == ESC ensures LETTER_M !in s[1..][i..] {
        assert s[1..][i..] == s[i + 1..];
      }
      CleanIsKept(s[1..]);
    }
  }

  /** Stripping leaves no escape with a later 'm', leaves such texts alone, and so does nothing the second time. */
  lemma {:induction false} StrippedIff(s: seq<byte>)
    ensures Clean(Stripped(s)) && Stripped(Stripped(s)) == Stripped(s)
    ensures Stripped(s) == s <==> Clean(s)
  {
    StrippedIsClean(s);
    CleanIsKept(Stripped(s));
    if Clean(s) { CleanIsKept(s); }
  }
}
