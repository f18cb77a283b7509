/// Comparison of C strings: strncmp cut to the length of the key, against lexicographic order.
module PathOrder {
  /// The sign of strncmp(path, key, strlen(key)).  Strings are without their NUL, which is below any
  /// other character: a path that ends early compares as smaller.
  function StrnCmp(path: string, key: string): (r: int)
    decreases |key|
  {
    if key == "" then 0
    else if path == "" then -1
    else if path[0] < key[0] then -1
    else if path[0] > key[0] then 1
    else StrnCmp(path[1..], key[1..])
  }

  predicate Less(a: string, b: string)
    decreases |a|
  {
    if b == "" then false
    else if a == "" then true
    else if a[0] != b[0] then a[0] < b[0]
    else Less(a[1..], b[1..])
  }

  lemma {:induction false} LessTransitive(a: string, b: string, c: string)
    requires Less(a, b) && Less(b, c)
    ensures Less(a, c)
    decreases |a|
  {
    if a != "" && a[0] == b[0] && b[0] == c[0] {
      LessTransitive(a[1..], b[1..], c[1..]);
    }
  }

  lemma {:induction false} LessTotal(a: string, b: string)
    ensures Less(a, b) || a == b || Less(b, a)
    ensures !(Less(a, b) && Less(b, a)) && !Less(a, a)
    decreases |a|
  {
    if a != "" && b != "" && a[0] == b[0] {
      LessTotal(a[1..], b[1..]);
      assert a == [a[0]] + a[1..] && b == [b[0]] + b[1..];
    } else if a != "" {
      LessTotal(a[1..], a[1..]);
    }
  }

  lemma {:induction false} PrefixCons(a: string, b: string)
    requires a != "" && b != ""
    ensures a <= b <==> a[0] == b[0] && a[1..] <= b[1..]
  {
    if a[0] == b[0] && a[1..] <= b[1..] {
      assert a == [a[0]] + a[1..] && b[..|a|] == [b[0]] + b[1..][..|a| - 1];
    }
  }

  /// The truncated comparison is 0 exactly on prefixes, and otherwise agrees with the order.
  lemma {:induction false} StrnCmpSign(path: string, key: string)
    ensures StrnCmp(path, key) == 0 <==> key <= path
    ensures StrnCmp(path, key) < 0 <==> Less(path, key)
    ensures StrnCmp(path, key) > 0 <==> Less(key, path) && !(key <= path)
    decreases |key|
  {
    if key != "" && path != "" {
      PrefixCons(key, path);
      StrnCmpSign(path[1..], key[1..]);
    }
  }

  /// A prefix is not above what it is a prefix of.
  lemma {:induction false} PrefixLess(a: string, b: string)
    requires a <= b
    ensures a == b || Less(a, b)
    decreases |a|
  {
    if a != "" {
      PrefixCons(a, b);
      PrefixLess(a[1..], b[1..]);
      assert a == [a[0]] + a[1..] && b == [b[0]] + b[1..];
    }
  }

  /// Of a prefix of path and a key below path that is no prefix of it, unless the prefix also begins
  /// the key, the key is the smaller.
  lemma {:induction false} KeyBelowPrefix(prefix: string, path: string, key: string)
    requires prefix <= path && Less(key, path) && !(key <= path) && !(prefix <= key)
    ensures Less(key, prefix)
    decreases |prefix|
  {
    if prefix != "" && key != "" && prefix[0] == key[0] {
      PrefixCons(prefix, path);
      PrefixCons(key, path);
      PrefixCons(prefix, key);
      KeyBelowPrefix(prefix[1..], path[1..], key[1..]);
    } else if prefix != "" {
      PrefixCons(prefix, path);
    }
  }
}
