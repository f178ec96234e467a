/** The `<wchar.h>` string and array primitives: index loops over arrays of
    `wchar_t` that search, compare or update them in place. A wide string is
    an array holding a 0 somewhere; the string is everything before the
    first 0. Each operation is a method whose loop is proved against a
    specification function on the array's contents, and the lemmas at the
    end of the module state what those functions mean. */
module WideString {
  import opened CTypes

  /** `wchar_t`, a signed 32-bit integer on this target. */
  type WChar = Int32

  // Specification functions.

  /** The reads a bounded string operation makes stay inside `s`: either
      the first `n` elements exist, or a terminator stops the reads earlier. */
  predicate Readable(s: seq<WChar>, n: nat)
  {
    n <= |s| || 0 in s
  }

  /** The number of elements before the first 0 among the first `n`. */
  function NLen(s: seq<WChar>, n: nat): (k: nat)
    requires Readable(s, n)
    ensures k <= n && k <= |s|
    ensures forall j :: 0 <= j < k ==> s[j] != 0
    ensures k < n ==> k < |s| && s[k] == 0
  {
    if n == 0 || s[0] == 0 then 0
    else
      assert s == [s[0]] + s[1..];
      1 + NLen(s[1..], n - 1)
  }

  /** The length of the string `s` holds: the index of its first 0. */
  function Strlen(s: seq<WChar>): (n: nat)
    requires 0 in s
    ensures n < |s| && s[n] == 0
    ensures forall j :: 0 <= j < n ==> s[j] != 0
  {
    NLen(s, |s|)
  }

  /** The first position at or after `i`, up to and including the
      terminator, that holds `wc`. */
  function FindFrom(s: seq<WChar>, wc: WChar, i: nat): (r: Option<nat>)
    requires 0 in s && i <= Strlen(s)
    ensures r.Some? ==> i <= r.value <= Strlen(s) && s[r.value] == wc
    ensures r.Some? ==> forall j :: i <= j < r.value ==> s[j] != wc
    ensures r.None? ==> forall j :: i <= j <= Strlen(s) ==> s[j] != wc
    decreases Strlen(s) - i
  {
    if s[i] == wc then Some(i)
    else if s[i] == 0 then None
    else FindFrom(s, wc, i + 1)
  }

  /** Where `wcschr` finds `wc` in the string `s`, its terminator included. */
  function Find(s: seq<WChar>, wc: WChar): Option<nat>
    requires 0 in s
  {
    FindFrom(s, wc, 0)
  }

  /** The last position below `k` that holds `wc`. */
  function LastBelow(s: seq<WChar>, wc: WChar, k: nat): (r: Option<nat>)
    requires k <= |s|
    ensures r.Some? ==> r.value < k && s[r.value] == wc
    ensures r.Some? ==> forall j :: r.value < j < k ==> s[j] != wc
    ensures r.None? ==> forall j :: 0 <= j < k ==> s[j] != wc
  {
    if k == 0 then None
    else if s[k - 1] == wc then Some(k - 1)
    else LastBelow(s, wc, k - 1)
  }

  /** Where `wcsrchr` finds `wc` in the string `s`: the last match before the
      terminator, so never the terminator itself. */
  function FindLast(s: seq<WChar>, wc: WChar): (r: Option<nat>)
    requires 0 in s
    ensures wc == 0 ==> r.None?
  {
    LastBelow(s, wc, Strlen(s))
  }

  /** The span `wcscspn` measures, from position `i` on. */
  function CspnFrom(s1: seq<WChar>, s2: seq<WChar>, i: nat): (n: nat)
    requires 0 in s1 && 0 in s2 && i <= Strlen(s1)
    ensures i <= n <= Strlen(s1)
    ensures forall j :: i <= j < n ==> Find(s2, s1[j]).None?
    ensures n < Strlen(s1) ==> Find(s2, s1[n]).Some?
    decreases Strlen(s1) - i
  {
    if s1[i] == 0 || Find(s2, s1[i]).Some? then i
    else CspnFrom(s1, s2, i + 1)
  }

  /** The length of the longest prefix of the string `s1` made of wide
      characters that do not occur in the string `s2`. */
  function Cspn(s1: seq<WChar>, s2: seq<WChar>): nat
    requires 0 in s1 && 0 in s2
  {
    CspnFrom(s1, s2, 0)
  }

  /** The reads a comparison of `n` positions makes stay inside `s`: for a
      string comparison (`nul`) a terminator may stop them early, for an
      array comparison all `n` elements must exist. */
  predicate CmpReadable(s: seq<WChar>, n: nat, nul: bool)
  {
    if nul then Readable(s, n) else n <= |s|
  }

  /** The first `i` positions of `s1` and `s2` exist and agree, and for a
      string comparison none of them is a terminator. */
  predicate Agree(s1: seq<WChar>, s2: seq<WChar>, i: nat, nul: bool)
  {
    && i <= |s1| && i <= |s2|
    && forall j :: 0 <= j < i ==> s1[j] == s2[j] && (nul ==> s1[j] != 0)
  }

  /** Position `i` is where a comparison of `n` positions first finds the
      two sequences differ. */
  predicate FirstDiff(s1: seq<WChar>, s2: seq<WChar>, n: nat, i: nat, nul: bool)
  {
    i < n && i < |s1| && i < |s2| && Agree(s1, s2, i, nul) && s1[i] != s2[i]
  }

  /** The comparison loop from position `i` on: the wrapped 32-bit difference
      at the first mismatch, or 0 after `n` positions or, for a string
      comparison, at a shared terminator. */
  function CmpFrom(s1: seq<WChar>, s2: seq<WChar>, n: nat, i: nat, nul: bool): Int32
    requires CmpReadable(s1, n, nul) && CmpReadable(s2, n, nul)
    requires i <= n && Agree(s1, s2, i, nul)
    decreases n - i
  {
    if i == n then 0
    else if s1[i] != s2[i] then Wrap32(s1[i] as int - s2[i] as int)
    else if nul && s1[i] == 0 then 0
    else CmpFrom(s1, s2, n, i + 1, nul)
  }

  /** `wcsncmp` (`nul`) or `wmemcmp` (not `nul`) on the contents `s1`, `s2`. */
  function Cmp(s1: seq<WChar>, s2: seq<WChar>, n: nat, nul: bool): Int32
    requires CmpReadable(s1, n, nul) && CmpReadable(s2, n, nul)
  {
    CmpFrom(s1, s2, n, 0, nul)
  }

  /** The array `wcscpy` leaves behind: the string of `s` and its
      terminator, then what `d` held after them. */
  function StrCopy(d: seq<WChar>, s: seq<WChar>): seq<WChar>
    requires 0 in s && Strlen(s) < |d|
  {
    s[..Strlen(s) + 1] + d[Strlen(s) + 1..]
  }

  /** The array `wcsncpy` leaves behind: the string of `s` cut at `n`, zeros
      up to position `n`, then what `d` held from `n` on. */
  function NCopy(d: seq<WChar>, s: seq<WChar>, n: nat): seq<WChar>
    requires Readable(s, n) && n <= |d|
  {
    var k := NLen(s, n);
    s[..k] + seq(n - k, _ => 0) + d[n..]
  }

  /** The array `wcsncat` leaves behind: the string of `d`, then at most `n`
      characters of the string of `s`, a terminator, and what `d` held
      after that. */
  function NCat(d: seq<WChar>, s: seq<WChar>, n: nat): seq<WChar>
    requires 0 in d && Readable(s, n) && Strlen(d) + NLen(s, n) < |d|
  {
    var len, k := Strlen(d), NLen(s, n);
    d[..len] + s[..k] + [0] + d[len + k + 1..]
  }

  // The operations.

  /** `wcslen`. */
  method Wcslen(ws: array<WChar>) returns (n: nat)
    requires 0 in ws[..]
    ensures n == Strlen(ws[..])
  {
    n := 0;
    while ws[n] != 0
      invariant n <= Strlen(ws[..])
      decreases Strlen(ws[..]) - n
    {
      n := n + 1;
    }
  }

  /** `wcschr`: the index of the first `wc`, testing for a match before
      testing for the terminator, so searching for 0 finds the terminator;
      `None` is the null pointer. */
  method Wcschr(ws: array<WChar>, wc: WChar) returns (r: Option<nat>)
    requires 0 in ws[..]
    ensures r == Find(ws[..], wc)
  {
    var i := 0;
    while true
      invariant i <= Strlen(ws[..])
      invariant FindFrom(ws[..], wc, i) == Find(ws[..], wc)
      decreases Strlen(ws[..]) - i
    {
      if ws[i] == wc {
        return Some(i);
      } else if ws[i] == 0 {
        return None;
      }
      i := i + 1;
    }
  }

  /** `wcsrchr`: the index of the last `wc` before the terminator. */
  method Wcsrchr(ws: array<WChar>, wc: WChar) returns (r: Option<nat>)
    requires 0 in ws[..]
    ensures r == FindLast(ws[..], wc)
  {
    r := None;
    var i := 0;
    while ws[i] != 0
      invariant i <= Strlen(ws[..])
      invariant r == LastBelow(ws[..], wc, i)
      decreases Strlen(ws[..]) - i
    {
      if ws[i] == wc {
        r := Some(i);
      }
      i := i + 1;
    }
  }

  /** `wcscspn`: the index of the first character of `ws1` that `wcschr`
      finds in `ws2`, which is at the latest `ws1`'s terminator. */
  method Wcscspn(ws1: array<WChar>, ws2: array<WChar>) returns (n: nat)
    requires 0 in ws1[..] && 0 in ws2[..]
    ensures n == Cspn(ws1[..], ws2[..])
  {
    n := 0;
    while true
      invariant n <= Strlen(ws1[..])
      invariant CspnFrom(ws1[..], ws2[..], n) == Cspn(ws1[..], ws2[..])
      decreases Strlen(ws1[..]) - n
    {
      var wc := ws1[n];
      var found := Wcschr(ws2, wc);
      if wc == 0 || found.Some? {
        return;
      }
      n := n + 1;
    }
  }

  /** `wcsncmp`: at most `n` positions, stopping at a shared terminator. */
  method Wcsncmp(ws1: array<WChar>, ws2: array<WChar>, n: Usize) returns (r: Int32)
    requires Readable(ws1[..], n) && Readable(ws2[..], n)
    ensures r == Cmp(ws1[..], ws2[..], n, true)
  {
    var i := 0;
    while i < n
      invariant i <= n && Agree(ws1[..], ws2[..], i, true)
      invariant CmpFrom(ws1[..], ws2[..], n, i, true) == Cmp(ws1[..], ws2[..], n, true)
    {
      var wc1, wc2 := ws1[i], ws2[i];
      if wc1 != wc2 {
        return Wrap32(wc1 as int - wc2 as int);
      } else if wc1 == 0 {
        return 0;
      }
      i := i + 1;
    }
    r := 0;
  }

  /** `wcscmp`: `wcsncmp` with no bound but the terminators. */
  method Wcscmp(ws1: array<WChar>, ws2: array<WChar>) returns (r: Int32)
    requires 0 in ws1[..] && 0 in ws2[..]
    ensures r == Cmp(ws1[..], ws2[..], USIZE_MAX, true)
  {
    r := Wcsncmp(ws1, ws2, USIZE_MAX);
  }

  /** `wmemcmp`: exactly `n` positions, terminators included. */
  method Wmemcmp(ws1: array<WChar>, ws2: array<WChar>, n: Usize) returns (r: Int32)
    requires n <= ws1.Length && n <= ws2.Length
    ensures r == Cmp(ws1[..], ws2[..], n, false)
  {
    var i := 0;
    while i < n
      invariant i <= n && Agree(ws1[..], ws2[..], i, false)
      invariant CmpFrom(ws1[..], ws2[..], n, i, false) == Cmp(ws1[..], ws2[..], n, false)
    {
      var wc1, wc2 := ws1[i], ws2[i];
      if wc1 != wc2 {
        return Wrap32(wc1 as int - wc2 as int);
      }
      i := i + 1;
    }
    r := 0;
  }

  /** `wmemchr`: the first of the `n` positions holding `wc`, terminators
      being ordinary elements. */
  method Wmemchr(ws: array<WChar>, wc: WChar, n: Usize) returns (r: Option<nat>)
    requires n <= ws.Length
    ensures r.Some? ==> r.value < n && ws[r.value] == wc
    ensures r.Some? ==> forall j :: 0 <= j < r.value ==> ws[j] != wc
    ensures r.None? ==> forall j :: 0 <= j < n ==> ws[j] != wc
  {
    var i := 0;
    while i < n
      invariant i <= n
      invariant forall j :: 0 <= j < i ==> ws[j] != wc
    {
      if ws[i] == wc {
        return Some(i);
      }
      i := i + 1;
    }
    r := None;
  }

  /** `wmemset`: the first `n` positions become `wc`, the rest is untouched. */
  method Wmemset(ws: array<WChar>, wc: WChar, n: Usize)
    requires n <= ws.Length
    modifies ws
    ensures forall j :: 0 <= j < n ==> ws[j] == wc
    ensures forall j :: n <= j < ws.Length ==> ws[j] == old(ws[j])
  {
    var i := 0;
    while i < n
      invariant i <= n
      invariant forall j :: 0 <= j < i ==> ws[j] == wc
      invariant forall j :: i <= j < ws.Length ==> ws[j] == old(ws[j])
    {
      ws[i] := wc;
      i := i + 1;
    }
  }

  /** `wcscpy`: the string of `ws2` and its terminator are copied to the
      front of `ws1`. Copying an array onto itself leaves it as it was. */
  method Wcscpy(ws1: array<WChar>, ws2: array<WChar>)
    requires 0 in ws2[..] && Strlen(ws2[..]) < ws1.Length
    modifies ws1
    ensures ws1[..] == StrCopy(old(ws1[..]), old(ws2[..]))
  {
    ghost var src := ws2[..];
    ghost var len := Strlen(src);
    var i := 0;
    while true
      invariant i <= len
      invariant forall j :: i <= j < ws2.Length ==> ws2[j] == src[j]
      invariant forall j :: 0 <= j < i ==> ws1[j] == src[j]
      invariant forall j :: i <= j < ws1.Length ==> ws1[j] == old(ws1[j])
      decreases len - i
    {
      var wc := ws2[i];
      ws1[i] := wc;
      i := i + 1;
      if wc == 0 {
        assert i == len + 1;
        assert ws1[..] == StrCopy(old(ws1[..]), src);
        return;
      }
    }
  }

  /** `wcsncpy`: at most `n` characters of the string of `ws2`, then zeros up
      to position `n`; nothing from `n` on changes. */
  method Wcsncpy(ws1: array<WChar>, ws2: array<WChar>, n: Usize)
    requires n <= ws1.Length && Readable(ws2[..], n)
    modifies ws1
    ensures ws1[..] == NCopy(old(ws1[..]), old(ws2[..]), n)
  {
    ghost var src, dst := ws2[..], ws1[..];
    ghost var k := NLen(src, n);
    var i := 0;
    while i < n
      invariant i <= k
      invariant forall j :: i <= j < ws2.Length ==> ws2[j] == src[j]
      invariant forall j :: 0 <= j < i ==> ws1[j] == src[j]
      invariant forall j :: i <= j < ws1.Length ==> ws1[j] == dst[j]
      decreases n - i
    {
      var wc := ws2[i];
      ws1[i] := wc;
      i := i + 1;
      if wc == 0 {
        break;
      }
    }
    while i < n
      invariant k <= i <= n
      invariant forall j :: 0 <= j < k ==> ws1[j] == src[j]
      invariant forall j :: k <= j < i ==> ws1[j] == 0
      invariant forall j :: i <= j < ws1.Length ==> ws1[j] == dst[j]
    {
      ws1[i] := 0;
      i := i + 1;
    }
    ghost var c := NCopy(dst, src, n);
    forall j | 0 <= j < ws1.Length
      ensures ws1[j] == c[j]
    {
      NCopyAt(dst, src, n, j);
    }
    assert |c| == ws1.Length;
    assert ws1[..] == c;
  }

  /** Position `j` of what `wcsncpy` leaves behind. */
  lemma {:induction false} NCopyAt(d: seq<WChar>, s: seq<WChar>, n: nat, j: nat)
    requires Readable(s, n) && n <= |d| && j < |d|
    ensures |NCopy(d, s, n)| == |d|
    ensures var k := NLen(s, n);
      NCopy(d, s, n)[j] == if j < k then s[j] else if j < n then 0 else d[j]
  {
    var k := NLen(s, n);
    var front := s[..k] + seq(n - k, _ => 0);
    assert NCopy(d, s, n) == front + d[n..];
    if j < n {
      assert NCopy(d, s, n)[j] == front[j];
    }
  }

  /** `wcsncat`: at most `n` characters of the string of `ws2`, and a
      terminator, are written over `ws1`'s terminator and what follows it.
      The two arrays must be distinct, as the C prototype's `restrict` demands. */
  method Wcsncat(ws1: array<WChar>, ws2: array<WChar>, n: Usize)
    requires ws1 != ws2
    requires 0 in ws1[..] && Readable(ws2[..], n)
    requires Strlen(ws1[..]) + NLen(ws2[..], n) < ws1.Length
    modifies ws1
    ensures ws1[..] == NCat(old(ws1[..]), old(ws2[..]), n)
  {
    ghost var dst, src := ws1[..], ws2[..];
    ghost var k := NLen(src, n);
    var len := Wcslen(ws1);
    var i := 0;
    while i < n
      invariant i <= k
      invariant ws2[..] == src
      invariant forall j :: 0 <= j < len ==> ws1[j] == dst[j]
      invariant forall j :: 0 <= j < i ==> ws1[len + j] == src[j]
      invariant forall j :: len + i <= j < ws1.Length ==> ws1[j] == dst[j]
      decreases n - i
    {
      var wc := ws2[i];
      if wc == 0 {
        break;
      }
      ws1[len + i] := wc;
      i := i + 1;
    }
    assert i == k;
    ws1[len + i] := 0;
    ghost var c := NCat(dst, src, n);
    forall j | 0 <= j < ws1.Length
      ensures ws1[j] == c[j]
    {
      NCatAt(dst, src, n, j);
    }
    NCatAt(dst, src, n, 0);
    assert ws1[..] == c;
  }

  /** Position `j` of what `wcsncat` leaves behind. */
  lemma {:induction false} NCatAt(d: seq<WChar>, s: seq<WChar>, n: nat, j: nat)
    requires 0 in d && Readable(s, n) && Strlen(d) + NLen(s, n) < |d|
    requires j < |d|
    ensures |NCat(d, s, n)| == |d|
    ensures var len, k := Strlen(d), NLen(s, n);
      NCat(d, s, n)[j] ==
        if j < len then d[j]
        else if j < len + k then s[j - len]
        else if j == len + k then 0
        else d[j]
  {
    var len, k := Strlen(d), NLen(s, n);
    var front := d[..len] + s[..k] + [0];
    assert NCat(d, s, n) == front + d[len + k + 1..];
    if j <= len + k {
      assert NCat(d, s, n)[j] == front[j];
    }
  }

  /** `wcscat`: `wcsncat` with no bound but `ws2`'s terminator. */
  method Wcscat(ws1: array<WChar>, ws2: array<WChar>)
    requires ws1 != ws2
    requires 0 in ws1[..] && 0 in ws2[..]
    requires Strlen(ws1[..]) + NLen(ws2[..], USIZE_MAX) < ws1.Length
    modifies ws1
    ensures ws1[..] == NCat(old(ws1[..]), old(ws2[..]), USIZE_MAX)
  {
    Wcsncat(ws1, ws2, USIZE_MAX);
  }

  // What the specification functions mean.

  /** `wcschr` finds `wc` exactly when it occurs in the string or is its
      terminator; in particular searching for 0 finds the terminator. */
  lemma {:induction false} FindMeaning(s: seq<WChar>, wc: WChar)
    requires 0 in s
    ensures Find(s, wc).Some? <==> wc in s[..Strlen(s) + 1]
    ensures Find(s, 0) == Some(Strlen(s))
  {
    if wc in s[..Strlen(s) + 1] {
      var j :| 0 <= j <= Strlen(s) && s[j] == wc;
    }
  }

  /** `wcsrchr` finds `wc` exactly when it occurs in the string. */
  lemma {:induction false} FindLastMeaning(s: seq<WChar>, wc: WChar)
    requires 0 in s
    ensures FindLast(s, wc).Some? <==> wc in s[..Strlen(s)]
  {
    if wc in s[..Strlen(s)] {
      var j :| 0 <= j < Strlen(s) && s[j] == wc;
    }
  }

  /** A string that occurs in the string of `s2` nowhere but at its end is
      spanned entirely; otherwise the span ends at the first character
      that does occur. */
  lemma {:induction false} CspnMeaning(s1: seq<WChar>, s2: seq<WChar>)
    requires 0 in s1 && 0 in s2
    ensures forall j :: 0 <= j < Cspn(s1, s2) ==> s1[j] !in s2[..Strlen(s2) + 1]
    ensures Cspn(s1, s2) < Strlen(s1) ==> s1[Cspn(s1, s2)] in s2[..Strlen(s2)]
  {
    var n := Cspn(s1, s2);
    forall j | 0 <= j < n
      ensures s1[j] !in s2[..Strlen(s2) + 1]
    {
      FindMeaning(s2, s1[j]);
    }
    if n < Strlen(s1) {
      FindMeaning(s2, s1[n]);
      var i := Find(s2, s1[n]).value;
      assert s2[i] == s1[n] != 0;
    }
  }

  /** Two different 32-bit values never have a wrapped difference of 0, and
      when their exact difference fits in 32 bits its sign is kept. */
  lemma {:induction false} WrapDiff(a: Int32, b: Int32)
    requires a != b
    ensures Wrap32(a as int - b as int) != 0
    ensures I32_MIN <= a as int - b as int <= I32_MAX ==> (Wrap32(a as int - b as int) > 0 <==> a > b)
  {
    var d := a as int - b as int;
    assert -U32_MOD < d < U32_MOD && d != 0;
    assert d % U32_MOD != 0;
  }

  /** The comparison from position `i` returns 0 exactly when no position
      from `i` on is a first difference, and otherwise the wrapped
      difference there. */
  lemma {:induction false} CmpFromMeaning(s1: seq<WChar>, s2: seq<WChar>, n: nat, i: nat, nul: bool)
    requires CmpReadable(s1, n, nul) && CmpReadable(s2, n, nul)
    requires i <= n && Agree(s1, s2, i, nul)
    ensures CmpFrom(s1, s2, n, i, nul) == 0 <==> forall k: nat :: !FirstDiff(s1, s2, n, k, nul)
    ensures forall k: nat :: FirstDiff(s1, s2, n, k, nul) ==> CmpFrom(s1, s2, n, i, nul) == Wrap32(s1[k] as int - s2[k] as int)
    decreases n - i
  {
    assert forall k: nat :: FirstDiff(s1, s2, n, k, nul) ==> k >= i;
    if i == n {
    } else {
      if s1[i] != s2[i] {
        assert FirstDiff(s1, s2, n, i, nul);
        WrapDiff(s1[i], s2[i]);
        forall k: nat | FirstDiff(s1, s2, n, k, nul)
          ensures k == i
        {
        }
      } else if nul && s1[i] == 0 {
        forall k: nat | FirstDiff(s1, s2, n, k, nul)
          ensures false
        {
        }
      } else {
        CmpFromMeaning(s1, s2, n, i + 1, nul);
        assert forall k: nat :: FirstDiff(s1, s2, n, k, nul) ==> k != i;
      }
    }
  }

  /** `wcsncmp` and `wmemcmp` return 0 exactly when the compared positions
      agree (up to and including a shared terminator, for `wcsncmp`), and
      otherwise the wrapped difference at the first mismatch, whose sign
      orders the two arguments whenever the exact difference fits. */
  lemma {:induction false} CmpMeaning(s1: seq<WChar>, s2: seq<WChar>, n: nat, nul: bool, k: nat)
    requires CmpReadable(s1, n, nul) && CmpReadable(s2, n, nul)
    ensures Cmp(s1, s2, n, nul) == 0 <==> forall i: nat :: !FirstDiff(s1, s2, n, i, nul)
    ensures FirstDiff(s1, s2, n, k, nul) ==> Cmp(s1, s2, n, nul) == Wrap32(s1[k] as int - s2[k] as int)
    ensures FirstDiff(s1, s2, n, k, nul) && I32_MIN <= s1[k] as int - s2[k] as int <= I32_MAX ==>
      (Cmp(s1, s2, n, nul) > 0 <==> s1[k] > s2[k])
  {
    CmpFromMeaning(s1, s2, n, 0, nul);
    if FirstDiff(s1, s2, n, k, nul) {
      WrapDiff(s1[k], s2[k]);
    }
  }

  /** Comparing is antisymmetric in whether the arguments differ. */
  lemma {:induction false} CmpSymmetric(s1: seq<WChar>, s2: seq<WChar>, n: nat, nul: bool)
    requires CmpReadable(s1, n, nul) && CmpReadable(s2, n, nul)
    ensures Cmp(s1, s2, n, nul) == 0 <==> Cmp(s2, s1, n, nul) == 0
  {
    CmpMeaning(s1, s2, n, nul, 0);
    CmpMeaning(s2, s1, n, nul, 0);
    forall i: nat | FirstDiff(s1, s2, n, i, nul)
      ensures FirstDiff(s2, s1, n, i, nul)
    {
    }
    forall i: nat | FirstDiff(s2, s1, n, i, nul)
      ensures FirstDiff(s1, s2, n, i, nul)
    {
    }
  }

  /** After `wcscpy` the destination holds the same string as the source. */
  lemma {:induction false} StrCopyMeaning(d: seq<WChar>, s: seq<WChar>)
    requires 0 in s && Strlen(s) < |d|
    ensures 0 in StrCopy(d, s)
    ensures Strlen(StrCopy(d, s)) == Strlen(s)
    ensures StrCopy(d, s)[..Strlen(s)] == s[..Strlen(s)]
    ensures |StrCopy(d, s)| == |d|
  {
    var c, len := StrCopy(d, s), Strlen(s);
    assert c[len] == 0;
    assert forall j :: 0 <= j < len ==> c[j] == s[j];
  }

  /** `wcsncpy` copies the string of `s` cut at `n`, zero-fills the rest of
      the first `n` positions and keeps the others; when the source string
      is shorter than `n` the destination holds the same string. */
  lemma {:induction false} NCopyMeaning(d: seq<WChar>, s: seq<WChar>, n: nat)
    requires Readable(s, n) && n <= |d|
    ensures |NCopy(d, s, n)| == |d|
    ensures NCopy(d, s, n)[..NLen(s, n)] == s[..NLen(s, n)]
    ensures forall j :: NLen(s, n) <= j < n ==> NCopy(d, s, n)[j] == 0
    ensures NCopy(d, s, n)[n..] == d[n..]
    ensures NLen(s, n) < n ==> 0 in NCopy(d, s, n) && Strlen(NCopy(d, s, n)) == NLen(s, n)
  {
    var c, k := NCopy(d, s, n), NLen(s, n);
    if k < n {
      assert c[k] == 0;
    }
  }

  /** After `wcsncat` the destination holds one string: its old string
      followed by at most `n` characters of the string of `s`. */
  lemma {:induction false} NCatMeaning(d: seq<WChar>, s: seq<WChar>, n: nat)
    requires 0 in d && Readable(s, n) && Strlen(d) + NLen(s, n) < |d|
    ensures 0 in NCat(d, s, n)
    ensures Strlen(NCat(d, s, n)) == Strlen(d) + NLen(s, n)
    ensures NCat(d, s, n)[..Strlen(d)] == d[..Strlen(d)]
    ensures NCat(d, s, n)[Strlen(d)..Strlen(d) + NLen(s, n)] == s[..NLen(s, n)]
    ensures |NCat(d, s, n)| == |d|
  {
    var len, k := Strlen(d), NLen(s, n);
    var a, b := d[..len], s[..k];
    assert forall j :: 0 <= j < |a| ==> a[j] != 0;
    assert forall j :: 0 <= j < |b| ==> b[j] != 0;
    JoinedString(a, b, d[len + k + 1..]);
    assert NCat(d, s, n) == a + b + [0] + d[len + k + 1..];
  }

  /** Two runs of nonzero characters, a 0 and anything after it form one
      string: the two runs, one after the other. */
  lemma {:induction false} JoinedString(a: seq<WChar>, b: seq<WChar>, rest: seq<WChar>)
    requires forall j :: 0 <= j < |a| ==> a[j] != 0
    requires forall j :: 0 <= j < |b| ==> b[j] != 0
    ensures var c := a + b + [0] + rest;
      && 0 in c && Strlen(c) == |a| + |b|
      && c[..|a|] == a && c[|a|..|a| + |b|] == b
  {
    var c := a + b + [0] + rest;
    forall j | 0 <= j < |a| + |b|
      ensures c[j] != 0
    {
      if j < |a| {
        assert c[j] == a[j];
      } else {
        assert c[j] == b[j - |a|];
      }
    }
    StrlenAt(c, |a| + |b|);
    assert c[..|a|] == a;
    assert c[|a|..|a| + |b|] == b;
  }

  /** A position holding 0 with no 0 before it is the string's length. */
  lemma {:induction false} StrlenAt(s: seq<WChar>, m: nat)
    requires m < |s| && s[m] == 0
    requires forall j :: 0 <= j < m ==> s[j] != 0
    ensures 0 in s && Strlen(s) == m
  {
    assert s[m] in s;
  }
}
