/**
  NormalizedTableName: the log table's name is the fixed prefix followed
  by the application name with every character outside [0-9A-Za-z ,]
  removed, cut to the table name length limit.
 */
module TableNames {

  const MaximumTableNameLength: nat := 63
  const TableNamePrefix: string := "MSDiagnosticEvents"

  /** The characters the name filter keeps: ASCII digits and letters, space and comma. */
  predicate IsTableNameChar(c: char) {
    || ('0' <= c <= '9')
    || ('A' <= c <= 'Z')
    || ('a' <= c <= 'z')
    || c == ' '
    || c == ','
  }

  predicate AllTableNameChars(s: string) {
    forall i :: 0 <= i < |s| ==> IsTableNameChar(s[i])
  }

  /** The regular-expression replace that deletes every character the class does not allow. */
  function StripDisallowed(s: string): (r: string)
    ensures |r| <= |s|
    ensures AllTableNameChars(r)
    decreases |s|
  {
    if |s| == 0 then ""
    else if IsTableNameChar(s[0]) then [s[0]] + StripDisallowed(s[1..])
    else StripDisallowed(s[1..])
  }

  function Min(a: int, b: int): int {
    if a <= b then a else b
  }

  /**
    The table name for an application: never longer than the limit, always
    starting with the prefix, followed by an initial part of the filtered
    application name, all of it when it fits.
   */
  function NormalizedTableName(appName: string): (r: string)
    ensures |r| <= MaximumTableNameLength
    ensures TableNamePrefix <= r
    ensures r[|TableNamePrefix|..] <= StripDisallowed(appName)
    ensures |TableNamePrefix| + |StripDisallowed(appName)| <= MaximumTableNameLength ==>
              r == TableNamePrefix + StripDisallowed(appName)
    ensures |TableNamePrefix| + |StripDisallowed(appName)| > MaximumTableNameLength ==>
              |r| == MaximumTableNameLength
    ensures AllTableNameChars(r)
  {
    var name := TableNamePrefix + StripDisallowed(appName);
    name[..Min(|name|, MaximumTableNameLength)]
  }

  /** `a` is `b` with some characters deleted and the rest kept in order. */
  ghost predicate IsSubsequence(a: string, b: string)
    decreases |b|
  {
    if |a| == 0 then true
    else if |b| == 0 then false
    else if a[0] == b[0] then IsSubsequence(a[1..], b[1..])
    else IsSubsequence(a, b[1..])
  }

  /** The filter only deletes: what is left appears in the input, in the same order. */
  lemma {:induction false} StripIsSubsequence(s: string)
    ensures IsSubsequence(StripDisallowed(s), s)
    decreases |s|
  {
    if |s| > 0 {
      StripIsSubsequence(s[1..]);
      if !IsTableNameChar(s[0]) {
        SubsequenceOfTail(StripDisallowed(s[1..]), s);
      }
    }
  }

  /** A subsequence of the tail is a subsequence of the whole. */
  lemma {:induction false} SubsequenceOfTail(a: string, b: string)
    requires |b| > 0
    requires IsSubsequence(a, b[1..])
    ensures IsSubsequence(a, b)
    decreases |b|, 0
  {
    if |a| > 0 && a[0] == b[0] {
      // The matching case of IsSubsequence(a, b) asks for IsSubsequence(a[1..], b[1..]),
      // which follows from IsSubsequence(a, b[1..]) by dropping a's first character.
      DropFirst(a, b[1..]);
    }
  }

  /** Removing the first character of a subsequence keeps it a subsequence. */
  lemma {:induction false} DropFirst(a: string, b: string)
    requires |a| > 0
    requires IsSubsequence(a, b)
    ensures IsSubsequence(a[1..], b)
    decreases |b|, 1
  {
    assert |b| > 0;
    if a[0] == b[0] {
      SubsequenceOfTail(a[1..], b);
    } else {
      DropFirst(a, b[1..]);
      SubsequenceOfTail(a[1..], b);
    }
  }

  /**
    The filter keeps every allowed character as often as it occurs and no
    other character at all. Together with StripIsSubsequence this pins the
    filtered string down exactly.
   */
  lemma {:induction false} StripKeepsAllowedCharacters(s: string)
    ensures forall c :: multiset(StripDisallowed(s))[c] == if IsTableNameChar(c) then multiset(s)[c] else 0
    decreases |s|
  {
    if |s| > 0 {
      StripKeepsAllowedCharacters(s[1..]);
      assert s == [s[0]] + s[1..];
      assert multiset(s) == multiset{s[0]} + multiset(s[1..]);
    }
  }

  /** Filtering a concatenation filters each part. */
  lemma {:induction false} StripConcat(a: string, b: string)
    ensures StripDisallowed(a + b) == StripDisallowed(a) + StripDisallowed(b)
    decreases |a|
  {
    if |a| > 0 {
      assert (a + b)[1..] == a[1..] + b;
      StripConcat(a[1..], b);
    } else {
      assert a + b == b;
    }
  }

  /** A string made only of allowed characters passes the filter unchanged. */
  lemma {:induction false} StripFixesAllowed(s: string)
    requires AllTableNameChars(s)
    ensures StripDisallowed(s) == s
    decreases |s|
  {
    if |s| > 0 {
      assert AllTableNameChars(s[1..]) by {
        forall i | 0 <= i < |s[1..]| ensures IsTableNameChar(s[1..][i]) {
          assert s[1..][i] == s[i + 1];
        }
      }
      StripFixesAllowed(s[1..]);
      assert s == [s[0]] + s[1..];
    }
  }

  /** Filtering twice is filtering once. */
  lemma {:induction false} StripIdempotent(s: string)
    ensures StripDisallowed(StripDisallowed(s)) == StripDisallowed(s)
  {
    StripFixesAllowed(StripDisallowed(s));
  }

  /** A short name made of allowed characters only gets the prefix. */
  lemma NormalizedAllowedShortName(appName: string)
    requires AllTableNameChars(appName)
    requires |TableNamePrefix| + |appName| <= MaximumTableNameLength
    ensures NormalizedTableName(appName) == TableNamePrefix + appName
  {
    StripFixesAllowed(appName);
  }

  /** Feeding a table name's suffix back in yields the same table name. */
  lemma NormalizedTableNameIdempotent(appName: string)
    ensures var r := NormalizedTableName(appName);
            NormalizedTableName(r[|TableNamePrefix|..]) == r
  {
    var r := NormalizedTableName(appName);
    var suffix := r[|TableNamePrefix|..];
    assert AllTableNameChars(suffix) by {
      forall i | 0 <= i < |suffix| ensures IsTableNameChar(suffix[i]) {
        assert suffix[i] == r[i + |TableNamePrefix|];
      }
    }
    NormalizedAllowedShortName(suffix);
    assert TableNamePrefix + suffix == r;
  }

  /** Hyphens and underscores are dropped; the rest fits under the limit. */
  lemma NormalizedTableNameExample()
    ensures NormalizedTableName("My-App_42") == "MSDiagnosticEventsMyApp42"
  {
    StripConcat("My-", "App_42");
    StripConcat("App", "_42");
  }
}
