/**
 * The affix operations of `string/common.py`: adding and deleting a prefix
 * or a suffix, and deleting every occurrence of a list of substrings with
 * Python's `str.replace(sub, '')`, applied in list order.
 *
 * `delete_prefix` and `delete_suffix` first call `str.removeprefix` /
 * `str.removesuffix` and discard what they return; only when that call
 * raises (a Python without those methods) does the hand-written fallback
 * change the string. The parameter `removeAvailable` names which of the two
 * branches runs.
 */
module StringAffix {
  import opened Outcomes

  /** `p` is a prefix of `s` (Python `s.startswith(p)`). */
  predicate IsPrefix(p: string, s: string) {
    |p| <= |s| && s[..|p|] == p
  }

  /** `x` is a suffix of `s` (Python `s.endswith(x)`). */
  predicate IsSuffix(x: string, s: string) {
    |x| <= |s| && s[|s| - |x|..] == x
  }

  /** `add_prefix`: the prefix followed by the string. */
  function AddPrefix(s: string, prefix: string): (r: string)
    ensures |r| == |prefix| + |s|
    ensures IsPrefix(prefix, r) && r[|prefix|..] == s
  {
    prefix + s
  }

  /** `add_suffix`: the string followed by the suffix. */
  function AddSuffix(s: string, suffix: string): (r: string)
    ensures |r| == |s| + |suffix|
    ensures IsSuffix(suffix, r) && r[..|s|] == s
  {
    s + suffix
  }

  /** Python's `s[:-n]` for a count `n >= 0`: `s[:-0]` is `s[:0]`, the empty string. */
  function DropLastPython(s: string, n: nat): (r: string)
    requires n <= |s|
    ensures n == 0 ==> r == []
    ensures n > 0 ==> |r| == |s| - n && r + s[|s| - n..] == s
  {
    if n == 0 then [] else s[..|s| - n]
  }

  /**
   * `delete_prefix` as written. With `removeAvailable` the result of
   * `removeprefix` is thrown away and the string comes back unchanged;
   * otherwise the fallback drops the prefix when the string starts with it.
   */
  function DeletePrefix(s: string, prefix: string, removeAvailable: bool): (r: string)
    ensures removeAvailable ==> r == s
    ensures !removeAvailable && IsPrefix(prefix, s) ==> prefix + r == s
    ensures !removeAvailable && !IsPrefix(prefix, s) ==> r == s
  {
    if removeAvailable then s
    else if IsPrefix(prefix, s) then
      assert s == s[..|prefix|] + s[|prefix|..];
      s[|prefix|..]
    else s
  }

  /**
   * `delete_suffix` as written. With `removeAvailable` the string comes back
   * unchanged; otherwise the fallback slices `s[:-len(suffix)]` when the
   * string ends with the suffix, which for the empty suffix is the empty
   * string.
   */
  function DeleteSuffix(s: string, suffix: string, removeAvailable: bool): (r: string)
    ensures removeAvailable ==> r == s
    ensures !removeAvailable && IsSuffix(suffix, s) && suffix != [] ==> r + suffix == s
    ensures !removeAvailable && suffix == [] ==> r == []
    ensures !removeAvailable && !IsSuffix(suffix, s) ==> r == s
  {
    if removeAvailable then s
    else if IsSuffix(suffix, s) then
      assert s == s[..|s| - |suffix|] + s[|s| - |suffix|..];
      DropLastPython(s, |suffix|)
    else s
  }

  /**
   * The prefix deletion the documentation promises (what `str.removeprefix`
   * returns): the string without the prefix when it starts with it, the
   * string unchanged otherwise.
   */
  function StripPrefix(s: string, prefix: string): (r: string)
    ensures IsPrefix(prefix, s) ==> prefix + r == s
    ensures !IsPrefix(prefix, s) ==> r == s
  {
    if IsPrefix(prefix, s) then
      assert s == s[..|prefix|] + s[|prefix|..];
      s[|prefix|..]
    else s
  }

  /**
   * The suffix deletion the documentation promises (what `str.removesuffix`
   * returns): the empty suffix leaves the string unchanged.
   */
  function StripSuffix(s: string, suffix: string): (r: string)
    ensures IsSuffix(suffix, s) ==> r + suffix == s
    ensures !IsSuffix(suffix, s) ==> r == s
  {
    if IsSuffix(suffix, s) then
      assert s == s[..|s| - |suffix|] + s[|s| - |suffix|..];
      s[..|s| - |suffix|]
    else s
  }

  /** Deleting an added prefix gives back the string. */
  lemma StripPrefixRoundTrip(s: string, prefix: string)
    ensures StripPrefix(AddPrefix(s, prefix), prefix) == s
  {
  }

  /** Deleting an added suffix gives back the string, the empty suffix included. */
  lemma StripSuffixRoundTrip(s: string, suffix: string)
    ensures StripSuffix(AddSuffix(s, suffix), suffix) == s
  {
    var t := AddSuffix(s, suffix);
    assert t[..|t| - |suffix|] == s;
  }

  /** On the fallback branch, `delete_prefix` is the documented deletion. */
  lemma DeletePrefixFallback(s: string, prefix: string)
    ensures DeletePrefix(s, prefix, false) == StripPrefix(s, prefix)
  {
  }

  /** On the fallback branch, `delete_suffix` is the documented deletion for every non-empty suffix. */
  lemma DeleteSuffixFallback(s: string, suffix: string)
    requires suffix != []
    ensures DeleteSuffix(s, suffix, false) == StripSuffix(s, suffix)
  {
  }

  /**
   * Where `removeprefix` exists, the round trip fails for every non-empty
   * prefix: the added prefix stays.
   */
  lemma DeletePrefixDiscards(s: string, prefix: string)
    requires prefix != []
    ensures DeletePrefix(AddPrefix(s, prefix), prefix, true) != s
    ensures StripPrefix(AddPrefix(s, prefix), prefix) == s
  {
    assert |AddPrefix(s, prefix)| > |s|;
  }

  /** Where `removesuffix` exists, the round trip fails for every non-empty suffix. */
  lemma DeleteSuffixDiscards(s: string, suffix: string)
    requires suffix != []
    ensures DeleteSuffix(AddSuffix(s, suffix), suffix, true) != s
    ensures StripSuffix(AddSuffix(s, suffix), suffix) == s
  {
    assert |AddSuffix(s, suffix)| > |s|;
    StripSuffixRoundTrip(s, suffix);
  }

  /**
   * On the fallback branch the empty suffix empties the string, where the
   * documentation promises it unchanged.
   */
  lemma DeleteSuffixEmptyClears(s: string)
    requires s != []
    ensures DeleteSuffix(s, [], false) == []
    ensures DeleteSuffix(s, [], false) != s
    ensures StripSuffix(s, []) == s
  {
    assert s[|s| - 0..] == [];
  }

  /** `sub` occurs in `s` at position `i`. */
  predicate OccursAt(sub: string, s: string, i: int) {
    0 <= i && i + |sub| <= |s| && s[i..i + |sub|] == sub
  }

  /**
   * Python's `s.replace(sub, '')`: scanning left to right, every
   * non-overlapping occurrence of `sub` is removed. The empty `sub` leaves
   * the string as it is.
   */
  function ReplaceAll(s: string, sub: string): (r: string)
    ensures |r| <= |s|
    ensures sub == [] ==> r == s
    decreases |s|
  {
    if sub == [] || |s| < |sub| then s
    else if s[..|sub|] == sub then ReplaceAll(s[|sub|..], sub)
    else [s[0]] + ReplaceAll(s[1..], sub)
  }

  /** The number of occurrences `ReplaceAll` removes. */
  function Removed(s: string, sub: string): (n: nat)
    decreases |s|
  {
    if sub == [] || |s| < |sub| then 0
    else if s[..|sub|] == sub then 1 + Removed(s[|sub|..], sub)
    else Removed(s[1..], sub)
  }

  /** Replacing removes whole occurrences only: the length drops by a multiple of the substring's length. */
  lemma {:induction false} ReplaceAllLength(s: string, sub: string)
    ensures |ReplaceAll(s, sub)| == |s| - Removed(s, sub) * |sub|
    decreases |s|
  {
    if sub == [] || |s| < |sub| {
    } else if s[..|sub|] == sub {
      var rest := s[|sub|..];
      ReplaceAllLength(rest, sub);
      assert ReplaceAll(s, sub) == ReplaceAll(rest, sub);
      assert Removed(s, sub) == 1 + Removed(rest, sub);
      MultiplySuccessor(Removed(rest, sub), |sub|);
    } else {
      ReplaceAllLength(s[1..], sub);
    }
  }

  lemma MultiplySuccessor(n: nat, m: nat)
    ensures (1 + n) * m == m + n * m
  {
  }

  /** A string where the substring does not occur is left unchanged. */
  lemma {:induction false} ReplaceAllAbsent(s: string, sub: string)
    requires forall i :: !OccursAt(sub, s, i)
    ensures ReplaceAll(s, sub) == s
    decreases |s|
  {
    if sub == [] || |s| < |sub| {
    } else {
      assert !OccursAt(sub, s, 0);
      forall i ensures !OccursAt(sub, s[1..], i) {
        if OccursAt(sub, s[1..], i) {
          assert s[1..][i..i + |sub|] == s[i + 1..i + 1 + |sub|];
          assert OccursAt(sub, s, i + 1);
        }
      }
      ReplaceAllAbsent(s[1..], sub);
      assert s == [s[0]] + s[1..];
    }
  }

  /**
   * Removing occurrences can make new ones: "aabb" without "ab" is "ab",
   * so one pass does not promise the substring is gone.
   */
  lemma ReplaceAllReforms()
    ensures ReplaceAll("aabb", "ab") == "ab"
    ensures OccursAt("ab", ReplaceAll("aabb", "ab"), 0)
  {
    assert "aabb"[..2][1] != "ab"[1];
    assert "aabb"[1..] == "abb";
    assert "abb"[..2] == "ab";
    assert "abb"[2..] == "b";
  }

  /** What `delete_substrings` accepts: one string, a list or tuple of strings, or anything else. */
  datatype Substrings = Single(sub: string) | Several(subs: seq<string>) | Other

  /** The list the loop walks: a single string is wrapped into a one-element list. */
  function Listed(substrings: Substrings): (r: Option<seq<string>>)
    ensures substrings.Other? <==> r.None?
    ensures substrings.Single? ==> r == Some([substrings.sub])
    ensures substrings.Several? ==> r == Some(substrings.subs)
  {
    match substrings
    case Single(sub) => Some([sub])
    case Several(subs) => Some(subs)
    case Other => None
  }

  /** Deleting each substring of the list in turn, first to last; this never lengthens the string. */
  function DeleteAll(s: string, subs: seq<string>): (r: string)
    ensures |r| <= |s|
  {
    if subs == [] then s else ReplaceAll(DeleteAll(s, subs[..|subs| - 1]), subs[|subs| - 1])
  }

  /** Deleting empty substrings, or none at all, leaves the string unchanged. */
  lemma {:induction false} DeleteAllEmptySubstrings(s: string, subs: seq<string>)
    requires forall j :: 0 <= j < |subs| ==> subs[j] == []
    ensures DeleteAll(s, subs) == s
  {
    if subs != [] {
      DeleteAllEmptySubstrings(s, subs[..|subs| - 1]);
    }
  }

  /** Deleting the list `p + q` is deleting `p`, then deleting `q` from what is left. */
  lemma {:induction false} DeleteAllConcat(s: string, p: seq<string>, q: seq<string>)
    ensures DeleteAll(s, p + q) == DeleteAll(DeleteAll(s, p), q)
  {
    if q == [] {
      assert p + q == p;
    } else {
      assert (p + q)[..|p + q| - 1] == p + q[..|q| - 1];
      DeleteAllConcat(s, p, q[..|q| - 1]);
    }
  }

  /**
   * `delete_substrings`. Anything but a string or a list of strings is an
   * InputError; otherwise every substring of the list is replaced by the
   * empty string, in list order.
   */
  method DeleteSubstrings(s: string, substrings: Substrings) returns (r: Result<string>)
    ensures substrings.Other? <==> r.Err?
    ensures r.Err? ==> r.fault == InputError
    ensures r.Ok? ==> r.value == DeleteAll(s, Listed(substrings).value)
    ensures r.Ok? ==> |r.value| <= |s|
  {
    var subs: seq<string>;
    match substrings {
      case Single(sub) =>
        subs := [sub];
      case Several(list) =>
        subs := list;
      case Other =>
        return Err(InputError);
    }
    var purged := s;
    var i := 0;
    while i < |subs|
      invariant 0 <= i <= |subs|
      invariant purged == DeleteAll(s, subs[..i])
    {
      assert subs[..i + 1][..i] == subs[..i];
      purged := ReplaceAll(purged, subs[i]);
      i := i + 1;
    }
    assert subs[..|subs|] == subs;
    return Ok(purged);
  }
}
