/** Redis Cluster key construction and hash-tag extraction (backend/keying.py). */
module Keying {
  import opened Models
  import RedisScripts

  /** The first position of `c` at or after `i`, or the length. */
  function Find(s: string, c: char, i: nat): (r: nat)
    requires i <= |s|
    ensures i <= r <= |s|
    ensures forall k :: i <= k < r ==> s[k] != c
    ensures r < |s| ==> s[r] == c
    decreases |s| - i
  {
    if i == |s| || s[i] == c then i else Find(s, c, i + 1)
  }

  /** The pattern `\{[^}]+\}` matches at `i`: a brace, one or more characters other than
      the closing brace, the closing brace. */
  predicate MatchesAt(key: string, i: nat) {
    i < |key| && key[i] == '{' && i + 1 < Find(key, '}', i + 1) < |key|
  }

  /** The leftmost match from `i` on, without its braces. */
  function Search(key: string, i: nat): Option<string>
    requires i <= |key|
    decreases |key| - i
  {
    if i == |key| then None
    else if MatchesAt(key, i) then Some(key[i + 1..Find(key, '}', i + 1)])
    else Search(key, i + 1)
  }

  predicate HasHashTag(key: string) {
    exists i | 0 <= i < |key| :: MatchesAt(key, i)
  }

  function ExtractHashTag(key: string): Option<string> {
    Search(key, 0)
  }

  function RStrip(s: string): string {
    if s != [] && s[|s| - 1] == ':' then RStrip(s[..|s| - 1]) else s
  }

  function LStrip(s: string): string {
    if s != [] && s[0] == ':' then LStrip(s[1..]) else s
  }

  function BuildRedisClusterKey(tag: string, suffix: string, prefix: string): string {
    var p, s := RStrip(prefix), LStrip(suffix);
    if p != [] then p + ":{" + tag + "}:" + s else "{" + tag + "}:" + s
  }

  /** Section "Hash tags" of the Redis Cluster specification: between the first `{` and
      the first `}` to its right, if both exist and something stands between them. */
  function RedisHashTag(key: string): Option<string> {
    var open := Find(key, '{', 0);
    if open == |key| then None
    else
      var close := Find(key, '}', open + 1);
      if open + 1 < close < |key| then Some(key[open + 1..close]) else None
  }

  // ----- Searching -----

  lemma FindIs(s: string, c: char, i: nat, r: nat)
    requires i <= r < |s| && s[r] == c
    requires forall k :: i <= k < r ==> s[k] != c
    ensures Find(s, c, i) == r
  {
  }

  lemma NoneFrom(s: string, c: char, i: nat)
    requires i <= |s| && forall k :: i <= k < |s| ==> s[k] != c
    ensures Find(s, c, i) == |s|
  {
  }

  lemma {:induction false} SearchSkips(key: string, i: nat, j: nat)
    requires i <= j <= |key|
    requires forall k :: i <= k < j ==> !MatchesAt(key, k)
    ensures Search(key, i) == Search(key, j)
    decreases j - i
  {
    if i < j {
      SearchSkips(key, i + 1, j);
    }
  }

  lemma {:induction false} SearchFinds(key: string, i: nat)
    requires i <= |key|
    ensures Search(key, i).Some? <==> exists k :: i <= k < |key| && MatchesAt(key, k)
    decreases |key| - i
  {
    if i < |key| && !MatchesAt(key, i) {
      SearchFinds(key, i + 1);
    }
  }

  /** The two public functions agree on whether there is a tag, and a tag is never
      empty and never holds a closing brace. */
  lemma {:induction false} TagIsProper(key: string)
    ensures HasHashTag(key) <==> ExtractHashTag(key).Some?
    ensures ExtractHashTag(key).Some? ==> ExtractHashTag(key).value != "" && '}' !in ExtractHashTag(key).value
  {
    SearchFinds(key, 0);
    FoundIsProper(key, 0);
  }

  lemma {:induction false} FoundIsProper(key: string, i: nat)
    requires i <= |key|
    ensures Search(key, i).Some? ==> Search(key, i).value != "" && '}' !in Search(key, i).value
    decreases |key| - i
  {
    if i < |key| && !MatchesAt(key, i) {
      FoundIsProper(key, i + 1);
    }
  }

  // ----- Additions before and after -----

  lemma FindAfterPrefix(p: string, key: string, c: char, i: nat)
    requires i <= |key|
    ensures Find(p + key, c, |p| + i) == |p| + Find(key, c, i)
  {
    var r := Find(key, c, i);
    forall k | |p| + i <= k < |p| + r
      ensures (p + key)[k] != c
    {
      assert (p + key)[k] == key[k - |p|];
    }
    if r < |key| {
      FindIs(p + key, c, |p| + i, |p| + r);
    }
  }

  lemma {:induction false} SearchAfterPrefix(p: string, key: string, i: nat)
    requires i <= |key|
    ensures Search(p + key, |p| + i) == Search(key, i)
    decreases |key| - i
  {
    if i < |key| {
      assert (p + key)[|p| + i] == key[i];
      FindAfterPrefix(p, key, '}', i + 1);
      SearchAfterPrefix(p, key, i + 1);
      if MatchesAt(key, i) {
        var close := Find(key, '}', i + 1);
        assert (p + key)[|p| + i + 1..|p| + close] == key[i + 1..close];
      }
    }
  }

  /** A prefix without an opening brace does not change the tag. */
  lemma PrefixKeepsTag(p: string, key: string)
    requires '{' !in p
    ensures ExtractHashTag(p + key) == ExtractHashTag(key)
  {
    forall k | 0 <= k < |p|
      ensures !MatchesAt(p + key, k)
    {
      assert (p + key)[k] == p[k] && p[k] in p;
    }
    SearchSkips(p + key, 0, |p|);
    SearchAfterPrefix(p, key, 0);
  }

  lemma {:induction false} SearchBeforeTail(key: string, tail: string, i: nat)
    requires i <= |key| && '}' !in tail
    ensures Search(key + tail, i) == Search(key, i)
    decreases |key| - i
  {
    var all := key + tail;
    assert forall k :: |key| <= k < |all| ==> all[k] == tail[k - |key|] && all[k] in tail;
    assert forall k :: 0 <= k < |key| ==> all[k] == key[k];
    if i == |key| {
      forall k | i <= k < |all|
        ensures !MatchesAt(all, k)
      {
        NoneFrom(all, '}', k + 1);
      }
      SearchSkips(all, i, |all|);
    } else {
      SearchBeforeTail(key, tail, i + 1);
      var close := Find(key, '}', i + 1);
      if close < |key| {
        FindIs(all, '}', i + 1, close);
        assert all[i + 1..close] == key[i + 1..close];
      } else {
        NoneFrom(all, '}', i + 1);
      }
    }
  }

  /** Appending `:seq`, or anything else without a closing brace, never changes the tag. */
  lemma TailKeepsTag(key: string, tail: string)
    requires '}' !in tail
    ensures ExtractHashTag(key + tail) == ExtractHashTag(key)
  {
    SearchBeforeTail(key, tail, 0);
  }

  // ----- Round trip -----

  /** `p` is `s` without its trailing colons: what is missing is colons only, and all of
      them. */
  predicate CutAtEnd(s: string, p: string) {
    && p <= s
    && (forall i :: |p| <= i < |s| ==> s[i] == ':')
    && (p != [] ==> p[|p| - 1] != ':')
  }

  /** `t` is `s` without its leading colons: what is missing is colons only, and all of
      them. */
  predicate CutAtFront(s: string, t: string) {
    && |t| <= |s|
    && t == s[|s| - |t|..]
    && (forall i :: 0 <= i < |s| - |t| ==> s[i] == ':')
    && (t != [] ==> t[0] != ':')
  }

  lemma {:induction false} RStripCuts(s: string)
    ensures CutAtEnd(s, RStrip(s))
  {
    if s != [] && s[|s| - 1] == ':' {
      RStripCuts(s[..|s| - 1]);
    }
  }

  lemma {:induction false} LStripCuts(s: string)
    ensures CutAtFront(s, LStrip(s))
  {
    if s != [] && s[0] == ':' {
      var rest := s[1..];
      LStripCuts(rest);
      assert forall i :: 1 <= i < |s| ==> s[i] == rest[i - 1];
    }
  }

  /** A built key is the prefix without its trailing colons, the tag in braces and the
      suffix without its leading colons, joined by single colons; a prefix that is
      empty after the cut leaves no colon. */
  lemma BuiltKeyIs(tag: string, suffix: string, prefix: string)
    ensures
      exists p, t ::
        && CutAtEnd(prefix, p)
        && CutAtFront(suffix, t)
        && BuildRedisClusterKey(tag, suffix, prefix) == (if p == "" then "" else p + ":") + "{" + tag + "}:" + t
  {
    var p, t := RStrip(prefix), LStrip(suffix);
    RStripCuts(prefix);
    LStripCuts(suffix);
    if p == "" {
      assert "" + "{" == "{";
    } else {
      assert p + ":{" == p + ":" + "{";
    }
  }

  lemma TagInFront(tag: string, rest: string)
    requires tag != "" && '}' !in tag
    ensures ExtractHashTag("{" + tag + "}:" + rest) == Some(tag)
  {
    var key := "{" + tag + "}:" + rest;
    var close := |tag| + 1;
    forall k | 1 <= k < close
      ensures key[k] != '}'
    {
      assert key[k] == tag[k - 1] && tag[k - 1] in tag;
    }
    assert key[close] == '}';
    FindIs(key, '}', 1, close);
    assert key[1..close] == tag;
  }

  /** The tag of a built key is the tag it was built with. */
  lemma BuiltKeyCarriesTag(tag: string, suffix: string, prefix: string)
    requires tag != "" && '}' !in tag && '{' !in prefix
    ensures ExtractHashTag(BuildRedisClusterKey(tag, suffix, prefix)) == Some(tag)
  {
    var p, s := RStrip(prefix), LStrip(suffix);
    TagInFront(tag, s);
    if p != [] {
      RStripCuts(prefix);
      var before := p + ":";
      assert '{' !in before by {
        assert forall c :: c in before ==> c in p || c == ':';
        assert forall c :: c in p ==> c in prefix;
      }
      PrefixKeepsTag(before, "{" + tag + "}:" + s);
      assert p + ":{" + tag + "}:" + s == before + ("{" + tag + "}:" + s);
    }
  }

  /** Keys built with proper tags are equal only if their tags are, and their prefixes and
      suffixes up to the stripped colons. */
  lemma BuiltKeysAreDistinct(tag: string, suffix: string, prefix: string,
                             tag': string, suffix': string, prefix': string)
    requires tag != "" && '}' !in tag && '{' !in prefix
    requires tag' != "" && '}' !in tag' && '{' !in prefix'
    ensures
      BuildRedisClusterKey(tag, suffix, prefix) == BuildRedisClusterKey(tag', suffix', prefix')
      <==> tag == tag' && RStrip(prefix) == RStrip(prefix') && LStrip(suffix) == LStrip(suffix')
  {
    var key, key' := BuildRedisClusterKey(tag, suffix, prefix), BuildRedisClusterKey(tag', suffix', prefix');
    BuiltKeyCarriesTag(tag, suffix, prefix);
    BuiltKeyCarriesTag(tag', suffix', prefix');
    PartsOfKey(tag, suffix, prefix);
    PartsOfKey(tag', suffix', prefix');
    hide ExtractHashTag;
    hide BuildRedisClusterKey;
  }

  /** Prefix and suffix can be read off a built key. */
  lemma PartsOfKey(tag: string, suffix: string, prefix: string)
    requires '{' !in prefix
    ensures
      var key, p := BuildRedisClusterKey(tag, suffix, prefix), RStrip(prefix);
      var open := if p == [] then 0 else |p| + 1;
      && Find(key, '{', 0) == open
      && open + |tag| + 3 <= |key|
      && key[..if open == 0 then 0 else open - 1] == p
      && key[open + |tag| + 3..] == LStrip(suffix)
  {
    var key, p, s := BuildRedisClusterKey(tag, suffix, prefix), RStrip(prefix), LStrip(suffix);
    RStripCuts(prefix);
    var open := if p == [] then 0 else |p| + 1;
    forall i | 0 <= i < open
      ensures key[i] != '{'
    {
      assert i < |p| ==> key[i] == prefix[i] && prefix[i] in prefix;
    }
    assert key[open] == '{';
    FindIs(key, '{', 0, open);
  }

  /** Different suffixes that do not start with a colon give different keys. */
  lemma SuffixesKeepKeysApart(tag: string, prefix: string, suffix: string, suffix': string)
    requires tag != "" && '}' !in tag && '{' !in prefix
    requires suffix != suffix'
    requires (suffix == [] || suffix[0] != ':') && (suffix' == [] || suffix'[0] != ':')
    ensures BuildRedisClusterKey(tag, suffix, prefix) != BuildRedisClusterKey(tag, suffix', prefix)
  {
    hide BuildRedisClusterKey;
    BuiltKeysAreDistinct(tag, suffix, prefix, tag, suffix', prefix);
    LStripCuts(suffix);
    LStripCuts(suffix');
  }

  /** Both keys that a window script is called with carry the tag, so a cluster keeps
      them in one slot. */
  lemma ScriptKeysShareTag(c: Config, now: Option<real>, keyPrefix: string, tag: string, suffix: string, prefix: string)
    requires tag != "" && '}' !in tag && '{' !in prefix && '{' !in keyPrefix
    ensures
      var call := RedisScripts.BuildScriptCall(BuildRedisClusterKey(tag, suffix, prefix), c, now, keyPrefix);
      forall i :: 0 <= i < |call.keys| ==> ExtractHashTag(call.keys[i]) == Some(tag)
  {
    hide Search;
    hide ExtractHashTag;
    var key := BuildRedisClusterKey(tag, suffix, prefix);
    BuiltKeyCarriesTag(tag, suffix, prefix);
    PrefixKeepsTag(keyPrefix, key);
    TailKeepsTag(key, ":seq");
    PrefixKeepsTag(keyPrefix, key + ":seq");
  }

  // ----- Agreement with Redis -----

  /** The first opening brace is closed at once. */
  predicate EmptyTagFirst(key: string) {
    var open := Find(key, '{', 0);
    open + 1 < |key| && key[open + 1] == '}'
  }

  /** Extraction agrees with Redis on every key whose first `{` is not directly followed
      by `}`. On the others Redis sees no tag, while the library takes the next tag
      after the empty one, so the two agree exactly when there is none. */
  lemma AgreesWithRedisIff(key: string)
    ensures
      ExtractHashTag(key) == RedisHashTag(key)
      <==> !EmptyTagFirst(key) || !HasHashTag(key[Find(key, '{', 0) + 2..])
  {
    var open := Find(key, '{', 0);
    SearchSkips(key, 0, open);
    if EmptyTagFirst(key) {
      var rest := key[open + 2..];
      assert key == key[..open + 2] + rest;
      FindIs(key, '}', open + 1, open + 1);
      SearchSkips(key, open, open + 2);
      SearchAfterPrefix(key[..open + 2], rest, 0);
      TagIsProper(rest);
    } else if open < |key| && !MatchesAt(key, open) {
      NoCloseNoMatch(key, open);
    }
  }

  lemma NoCloseNoMatch(key: string, open: nat)
    requires open < |key| && Find(key, '}', open + 1) == |key|
    ensures Search(key, open) == None
  {
    forall k | open <= k < |key|
      ensures !MatchesAt(key, k)
    {
      var close := Find(key, '}', k + 1);
    }
    SearchSkips(key, open, |key|);
  }
}
