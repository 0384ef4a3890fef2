/** NUL-terminated strings and the few libc functions that the wire code and the editor use on them. */
module CStrings {
  import opened Options

  const NUL: char := '\0'

  /** The string that starts at p: the bytes up to the first NUL. */
  function CStr(mem: seq<char>, p: nat): (s: string)
    requires p <= |mem|
    ensures NUL !in s && |s| <= |mem| - p && s == mem[p..p + |s|]
    ensures p + |s| < |mem| ==> mem[p + |s|] == NUL
    decreases |mem| - p
  {
    if p == |mem| || mem[p] == NUL then [] else [mem[p]] + CStr(mem, p + 1)
  }

  /** The string is the unique NUL-free stretch that ends in a NUL. */
  lemma {:induction false} CStrIs(mem: seq<char>, p: nat, s: string)
    requires p + |s| < |mem| && mem[p..p + |s|] == s && NUL !in s && mem[p + |s|] == NUL
    ensures CStr(mem, p) == s
    decreases |s|
  {
    if s != [] {
      assert mem[p] == s[0];
      assert mem[p + 1..p + |s|] == s[1..];
      CStrIs(mem, p + 1, s[1..]);
    }
  }

  /** snprintf keeps at most size - 1 characters. */
  function Snprintf(size: nat, s: string): (r: string)
    requires size >= 1
    ensures |s| < size ==> r == s
    ensures |r| < size && r <= s
    ensures |s| >= size ==> |r| == size - 1
  {
    if |s| < size then s else s[..size - 1]
  }

  /** Index of the first c at or after p, if any: strchr on a NUL-free string and String.indexOf. */
  function IndexOf(s: string, c: char, p: nat): (r: Option<nat>)
    requires p <= |s|
    ensures r.None? ==> forall k | p <= k < |s| :: s[k] != c
    ensures r.Some? ==> p <= r.value < |s| && s[r.value] == c && forall k | p <= k < r.value :: s[k] != c
    decreases |s| - p
  {
    if p == |s| then None else if s[p] == c then Some(p) else IndexOf(s, c, p + 1)
  }

  /** The first occurrence is found. */
  lemma {:induction false} IndexOfIs(s: string, c: char, p: nat, k: nat)
    requires p <= k < |s| && s[k] == c && forall j | p <= j < k :: s[j] != c
    ensures IndexOf(s, c, p) == Some(k)
  {
  }

  predicate StartsWith(s: string, prefix: string) {
    prefix <= s
  }
}
