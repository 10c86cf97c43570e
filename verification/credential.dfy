/** The composite stream name "username/streamkey/...": splitting it on '/'
    the way `str::split` does, and taking segment 0 as the account and
    segment 1 as the secret. */
module Credential {
  import opened Wrappers

  const Separator := '/'

  /** The account and the secret named by a composite stream name. */
  datatype Credential = Credential(username: string, streamkey: string)

  /** Glues segments back together with `sep` between neighbours. */
  function Join(parts: seq<string>, sep: char): string
    requires |parts| >= 1
  {
    if |parts| == 1 then parts[0] else parts[0] + [sep] + Join(parts[1..], sep)
  }

  /** The segments of `s` between occurrences of `sep`; empty segments are
      kept, and a text without `sep` is one segment. */
  function Split(s: string, sep: char): (parts: seq<string>)
    ensures |parts| >= 1
    ensures forall i :: 0 <= i < |parts| ==> sep !in parts[i]
    ensures Join(parts, sep) == s
    ensures |parts| >= 2 <==> sep in s
    decreases |s|
  {
    if |s| == 0 then [""]
    else
      var tail := Split(s[1..], sep);
      if s[0] == sep then
        assert s == [] + [sep] + Join(tail, sep);
        [""] + tail
      else
        var parts := [[s[0]] + tail[0]] + tail[1..];
        JoinCons(s[0], tail, sep);
        assert s == [s[0]] + s[1..];
        parts
  }

  /** Putting a character in front of the first segment puts it in front of
      the joined text. */
  lemma JoinCons(c: char, parts: seq<string>, sep: char)
    requires |parts| >= 1
    ensures Join([[c] + parts[0]] + parts[1..], sep) == [c] + Join(parts, sep)
  {
    var cons := [[c] + parts[0]] + parts[1..];
    assert cons[1..] == parts[1..];
  }

  lemma {:induction false} SplitWithoutSeparator(s: string, sep: char)
    requires sep !in s
    ensures Split(s, sep) == [s]
    decreases |s|
  {
    if |s| > 0 {
      SplitWithoutSeparator(s[1..], sep);
      assert [s[0]] + s[1..] == s;
    }
  }

  lemma {:induction false} SplitAfterSegment(a: string, sep: char, rest: string)
    requires sep !in a
    ensures Split(a + [sep] + rest, sep) == [a] + Split(rest, sep)
    decreases |a|
  {
    var s := a + [sep] + rest;
    if |a| == 0 {
      assert s[1..] == rest;
    } else {
      assert s[1..] == a[1..] + [sep] + rest;
      SplitAfterSegment(a[1..], sep, rest);
      assert [a[0]] + a[1..] == a;
    }
  }

  /** Split is the only way to cut a text into separator-free segments that
      join back to it, so Join and Split are inverse to each other. */
  lemma {:induction false} SplitUnique(parts: seq<string>, sep: char)
    requires |parts| >= 1
    requires forall i :: 0 <= i < |parts| ==> sep !in parts[i]
    ensures Split(Join(parts, sep), sep) == parts
    decreases |parts|
  {
    if |parts| == 1 {
      SplitWithoutSeparator(parts[0], sep);
    } else {
      SplitUnique(parts[1..], sep);
      SplitAfterSegment(parts[0], sep, Join(parts[1..], sep));
      assert [parts[0]] + parts[1..] == parts;
    }
  }

  /** Segment 0 of the name is the account, segment 1 the secret; later
      segments are ignored. A name with no '/' has no segment 1, which the
      Rust handler meets with a panic (None here). */
  function ParseName(name: string): (r: Option<Credential>)
    ensures r.None? <==> Separator !in name
    ensures r.Some? ==>
      var u, k := r.value.username, r.value.streamkey;
      && Separator !in u && Separator !in k
      && |u| + 1 + |k| <= |name|
      && name[..|u|] == u
      && name[|u|] == Separator
      && name[|u| + 1 .. |u| + 1 + |k|] == k
      && (|u| + 1 + |k| == |name| || name[|u| + 1 + |k|] == Separator)
  {
    var parts := Split(name, Separator);
    if |parts| < 2 then
      assert name == parts[0];
      None
    else
      var u, k := parts[0], parts[1];
      var after := Join(parts[1..], Separator);
      assert name == u + [Separator] + after;
      assert name[|u|] == Separator;
      assert after[..|k|] == k && (|k| == |after| || after[|k|] == Separator) by {
        if |parts| > 2 {
          assert after == k + [Separator] + Join(parts[2..], Separator);
        }
      }
      assert name[|u| + 1..] == after;
      Some(Credential(u, k))
  }

  /** Conversely, any account and secret without '/' are read back from
      "account/secret", whatever further segments follow. */
  lemma ParseNameOf(username: string, streamkey: string, rest: string)
    requires Separator !in username && Separator !in streamkey
    requires rest == [] || rest[0] == Separator
    ensures ParseName(username + [Separator] + streamkey + rest) == Some(Credential(username, streamkey))
  {
    var name := username + [Separator] + streamkey + rest;
    assert name == username + [Separator] + (streamkey + rest);
    SplitAfterSegment(username, Separator, streamkey + rest);
    if rest == [] {
      assert streamkey + rest == streamkey;
      SplitWithoutSeparator(streamkey, Separator);
    } else {
      assert streamkey + rest == streamkey + [Separator] + rest[1..];
      SplitAfterSegment(streamkey, Separator, rest[1..]);
    }
  }

  /** An example name: "alice/SECRET123" names user "alice", key "SECRET123".
      The name is a parameter fixed by the requires clause, not a literal
      argument, so that the proof goes through ParseNameOf instead of the
      verifier unfolding Split character by character. */
  lemma ExampleName(name: string)
    requires name == "alice/SECRET123"
    ensures ParseName(name) == Some(Credential("alice", "SECRET123"))
  {
    var user, key: string := "alice", "SECRET123";
    assert Separator !in user && Separator !in key;
    assert user + [Separator] + key + [] == name;
    ParseNameOf(user, key, []);
  }
}
