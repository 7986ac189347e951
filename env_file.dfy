/**
 * The `.env` rewrite shared by addIndexes.js and setupDatabase.js: with the file
 * present and mentioning `INDEXES_ADDED=`, every `INDEXES_ADDED=` through the end
 * of its line (the regular expression `/INDEXES_ADDED=.* /g`, without the space)
 * becomes `INDEXES_ADDED=<v>`; with the key absent the setting is appended; with
 * no file the content is the setting alone.
 */
module EnvFile {
  import opened Wrappers
  import Text

  const Key: string := "INDEXES_ADDED="

  /** The characters JavaScript's `.` does not match. */
  predicate IsLineTerminator(c: char) {
    c == '\n' || c == '\r' || c == '\U{2028}' || c == '\U{2029}'
  }

  predicate OneLine(s: string) {
    forall i :: 0 <= i < |s| ==> !IsLineTerminator(s[i])
  }

  predicate NoKey(s: string) {
    forall i :: 0 <= i <= |s| ==> !Text.MatchAt(s, Key, i)
  }

  /** The length of the longest line-terminator-free prefix of `s`: what `.*` matches. */
  function LineLength(s: string): (n: nat)
    ensures n <= |s|
    ensures OneLine(s[..n])
    ensures n == |s| || IsLineTerminator(s[n])
    decreases |s|
  {
    if s == [] || IsLineTerminator(s[0]) then 0
    else
      var m := LineLength(s[1..]);
      assert s[..1 + m] == [s[0]] + s[1..][..m];
      1 + m
  }

  /** `s.replace(/INDEXES_ADDED=.* /g, Key + v)`: matches are found left to right. */
  function ReplaceAll(s: string, v: string): string
    decreases |s|
  {
    if |s| == 0 then ""
    else if Key <= s then
      var rest := s[|Key|..];
      Key + v + ReplaceAll(rest[LineLength(rest)..], v)
    else [s[0]] + ReplaceAll(s[1..], v)
  }

  /** The value after each `INDEXES_ADDED=`, up to the end of its line, in order. */
  function Values(s: string): seq<string>
    decreases |s|
  {
    if |s| == 0 then []
    else if Key <= s then
      var rest := s[|Key|..];
      var n := LineLength(rest);
      [rest[..n]] + Values(rest[n..])
    else Values(s[1..])
  }

  /** `s` with each of those values cut out: all the text the rewrite must not touch. */
  function Skeleton(s: string): string
    decreases |s|
  {
    if |s| == 0 then ""
    else if Key <= s then
      var rest := s[|Key|..];
      Key + Skeleton(rest[LineLength(rest)..])
    else [s[0]] + Skeleton(s[1..])
  }

  function Repeat(v: string, n: nat): (r: seq<string>)
    ensures |r| == n && forall i :: 0 <= i < n ==> r[i] == v
  {
    if n == 0 then [] else [v] + Repeat(v, n - 1)
  }

  /** The new content of `.env` written by the script (the file may be absent). */
  function Rewrite(content: Option<string>, v: string): string {
    match content
    case None => Key + v + "\n"
    case Some(c) =>
      if Text.Includes(c, Key) then ReplaceAll(c, v) else c + "\n" + Key + v + "\n"
  }

  // ---- helper facts about the scan ----

  lemma {:induction false} LineOfValue(v: string, t: string)
    requires OneLine(v)
    requires t == [] || IsLineTerminator(t[0])
    ensures LineLength(v + t) == |v|
    decreases |v|
  {
    if v != [] {
      assert (v + t)[0] == v[0];
      assert (v + t)[1..] == v[1..] + t;
      LineOfValue(v[1..], t);
    } else {
      assert v + t == t;
    }
  }

  lemma StartsWithBreak(t: string, v: string)
    requires t == [] || IsLineTerminator(t[0])
    ensures ReplaceAll(t, v) == [] || IsLineTerminator(ReplaceAll(t, v)[0])
  {
    if t != [] {
      assert !(Key <= t) by { assert Key[0] == 'I'; }
    }
  }

  /** The rewrite leaves the first `|Key|` characters alone (or changes nothing). */
  lemma {:induction false} PrefixKept(u: string, v: string)
    ensures ReplaceAll(u, v) == u ||
            (|u| >= |Key| && |ReplaceAll(u, v)| >= |Key| && ReplaceAll(u, v)[..|Key|] == u[..|Key|])
    decreases |u|
  {
    if |u| == 0 {
    } else if Key <= u {
      PrefixKeptAtKey(u, v);
    } else {
      PrefixKept(u[1..], v);
      PrefixKeptStep(u, v, ReplaceAll(u[1..], v));
    }
  }

  lemma PrefixKeptAtKey(u: string, v: string)
    requires Key <= u
    ensures |u| >= |Key| && |ReplaceAll(u, v)| >= |Key| && ReplaceAll(u, v)[..|Key|] == u[..|Key|]
  {
    var rest := u[|Key|..];
    var out := Key + v + ReplaceAll(rest[LineLength(rest)..], v);
    assert ReplaceAll(u, v) == out;
    assert out[..|Key|] == Key;
  }

  lemma PrefixKeptStep(u: string, v: string, r1: string)
    requires |u| > 0 && !(Key <= u) && r1 == ReplaceAll(u[1..], v)
    requires r1 == u[1..] || (|u[1..]| >= |Key| && |r1| >= |Key| && r1[..|Key|] == u[1..][..|Key|])
    ensures ReplaceAll(u, v) == u ||
            (|u| >= |Key| && |ReplaceAll(u, v)| >= |Key| && ReplaceAll(u, v)[..|Key|] == u[..|Key|])
  {
    assert ReplaceAll(u, v) == [u[0]] + r1;
    if r1 == u[1..] {
      assert u == [u[0]] + u[1..];
    } else {
      var k := |Key| - 1;
      assert r1[..k] == r1[..|Key|][..k] == u[1..][..|Key|][..k] == u[1..][..k];
      assert ([u[0]] + r1)[..|Key|] == [u[0]] + r1[..k];
      assert u[..|Key|] == [u[0]] + u[1..][..k];
    }
  }

  lemma KeyNoBreak()
    ensures OneLine(Key) && Key[0] == 'I'
  {
  }

  lemma KeyAtStart(s: string)
    ensures Text.MatchAt(s, Key, 0) <==> Key <= s
  {
    if |Key| <= |s| {
      assert s[0..|Key|] == s[..|Key|];
    }
  }

  /** A position where the input does not start a key does not start one in the output. */
  lemma NotKeyStart(s: string, v: string)
    requires s != [] && !(Key <= s)
    ensures !(Key <= [s[0]] + ReplaceAll(s[1..], v))
  {
    var o := [s[0]] + ReplaceAll(s[1..], v);
    PrefixKept(s[1..], v);
    if ReplaceAll(s[1..], v) == s[1..] {
      assert o == s;
    } else {
      var r1 := ReplaceAll(s[1..], v);
      var k := |Key| - 1;
      assert r1[..k] == r1[..|Key|][..k] == s[1..][..|Key|][..k] == s[1..][..k];
      assert o[..|Key|] == [s[0]] + r1[..k];
      assert s[..|Key|] == [s[0]] + s[1..][..k];
      assert o[..|Key|] == s[..|Key|];
      PrefixByTake(Key, o);
      PrefixByTake(Key, s);
    }
  }

  lemma PrefixByTake(p: string, x: string)
    ensures p <= x <==> |p| <= |x| && x[..|p|] == p
  {
  }

  /** The scan over `Key + v + t`, when `v` is one line and `t` starts a new one. */
  lemma KeyThenValue(v: string, t: string)
    requires OneLine(v)
    requires t == [] || IsLineTerminator(t[0])
    ensures var o := Key + v + t;
            Key <= o && o[|Key|..][LineLength(o[|Key|..])..] == t &&
            o[|Key|..][..LineLength(o[|Key|..])] == v
  {
    var o := Key + v + t;
    assert o[|Key|..] == v + t;
    LineOfValue(v, t);
    assert (v + t)[|v|..] == t;
    assert (v + t)[..|v|] == v;
  }

  // ---- what the rewrite does ----

  /**
   * Every value after `INDEXES_ADDED=` becomes `v`, there are as many as
   * before, and all other text is unchanged.
   */
  lemma {:induction false} ReplaceAllMeaning(s: string, v: string)
    requires OneLine(v)
    ensures Values(ReplaceAll(s, v)) == Repeat(v, |Values(s)|)
    ensures Skeleton(ReplaceAll(s, v)) == Skeleton(s)
    decreases |s|
  {
    if |s| == 0 {
    } else if Key <= s {
      var rest := s[|Key|..];
      var t := rest[LineLength(rest)..];
      StartsWithBreak(t, v);
      KeyThenValue(v, ReplaceAll(t, v));
      ReplaceAllMeaning(t, v);
    } else {
      NotKeyStart(s, v);
      ReplaceAllMeaning(s[1..], v);
      var o := [s[0]] + ReplaceAll(s[1..], v);
      assert o[1..] == ReplaceAll(s[1..], v);
    }
  }

  /** Applying the rewrite to its own output changes nothing. */
  lemma {:induction false} ReplaceAllIdempotent(s: string, v: string)
    requires OneLine(v)
    ensures ReplaceAll(ReplaceAll(s, v), v) == ReplaceAll(s, v)
    decreases |s|
  {
    if |s| == 0 {
    } else if Key <= s {
      var rest := s[|Key|..];
      var t := rest[LineLength(rest)..];
      StartsWithBreak(t, v);
      KeyThenValue(v, ReplaceAll(t, v));
      ReplaceAllIdempotent(t, v);
    } else {
      NotKeyStart(s, v);
      ReplaceAllIdempotent(s[1..], v);
      var o := [s[0]] + ReplaceAll(s[1..], v);
      assert o[1..] == ReplaceAll(s[1..], v);
    }
  }

  /** Text without the key is left exactly as it is. */
  lemma {:induction false} ReplaceAllNoKey(s: string, v: string)
    requires NoKey(s)
    ensures ReplaceAll(s, v) == s
    ensures Values(s) == []
    ensures Skeleton(s) == s
    decreases |s|
  {
    if |s| > 0 {
      assert !Text.MatchAt(s, Key, 0);
      assert !(Key <= s);
      forall i ensures !Text.MatchAt(s[1..], Key, i) {
        if 0 <= i && i + |Key| <= |s[1..]| {
          assert s[1..][i..i + |Key|] == s[i + 1..i + 1 + |Key|];
          assert !Text.MatchAt(s, Key, i + 1);
        }
      }
      ReplaceAllNoKey(s[1..], v);
      assert s == [s[0]] + s[1..];
    }
  }

  lemma NoKeyTail(c: string)
    requires NoKey(c) && c != []
    ensures NoKey(c[1..])
  {
    forall i | 0 <= i <= |c[1..]| ensures !Text.MatchAt(c[1..], Key, i) {
      if i + |Key| <= |c[1..]| {
        assert c[1..][i..i + |Key|] == c[i + 1..i + 1 + |Key|];
      }
      assert !Text.MatchAt(c, Key, i + 1);
    }
  }

  /** Key-free text followed by a line break: the rewrite passes over the prefix. */
  lemma {:induction false} NoKeyPrefix(c: string, u: string, v: string)
    requires NoKey(c)
    requires u != [] && u[0] == '\n'
    ensures ReplaceAll(c + u, v) == c + ReplaceAll(u, v)
    decreases |c|
  {
    if c == [] {
      assert c + u == u;
    } else {
      NotKeyBeforeBreak(c, u);
      NoKeyTail(c);
      assert (c + u)[1..] == c[1..] + u;
      NoKeyPrefix(c[1..], u, v);
      assert c == [c[0]] + c[1..];
    }
  }

  /** ... and so do the value and skeleton scans. */
  lemma {:induction false} NoKeyPrefixScan(c: string, u: string)
    requires NoKey(c)
    requires u != [] && u[0] == '\n'
    ensures Values(c + u) == Values(u)
    ensures Skeleton(c + u) == c + Skeleton(u)
    decreases |c|
  {
    if c == [] {
      assert c + u == u;
    } else {
      NotKeyBeforeBreak(c, u);
      NoKeyTail(c);
      assert (c + u)[1..] == c[1..] + u;
      NoKeyPrefixScan(c[1..], u);
      assert c == [c[0]] + c[1..];
    }
  }

  lemma NotKeyBeforeBreak(c: string, u: string)
    requires NoKey(c) && c != []
    requires u != [] && u[0] == '\n'
    ensures !(Key <= c + u)
  {
    var s := c + u;
    assert !Text.MatchAt(c, Key, 0);
    KeyAtStart(c);
    KeyNoBreak();
    if |c| >= |Key| {
      assert s[..|Key|] == c[..|Key|];
    } else if |s| >= |Key| {
      assert s[..|Key|][|c|] == '\n';
      assert Key[|c|] != '\n';
    }
  }

  /** There is a value to rewrite exactly when the text contains the key. */
  lemma {:induction false} ValuesExist(s: string)
    ensures |Values(s)| > 0 <==> exists i :: Text.MatchAt(s, Key, i)
    decreases |s|
  {
    KeyAtStart(s);
    if |s| == 0 {
      assert forall i :: !Text.MatchAt(s, Key, i);
    } else if Key <= s {
      assert Text.MatchAt(s, Key, 0);
    } else {
      ValuesExist(s[1..]);
      forall i | Text.MatchAt(s, Key, i) ensures Text.MatchAt(s[1..], Key, i - 1) {
        assert s[1..][i - 1..i - 1 + |Key|] == s[i..i + |Key|];
      }
      forall j | Text.MatchAt(s[1..], Key, j) ensures Text.MatchAt(s, Key, j + 1) {
        assert s[1..][j..j + |Key|] == s[j + 1..j + 1 + |Key|];
      }
    }
  }

  /** The setting line the scripts write, seen by the scan. */
  lemma SettingLine(v: string)
    requires OneLine(v)
    ensures Values(Key + v + "\n") == [v]
    ensures Skeleton(Key + v + "\n") == Key + "\n"
    ensures ReplaceAll(Key + v + "\n", v) == Key + v + "\n"
  {
    KeyThenValue(v, "\n");
    var line := Key + v + "\n";
    var rest := line[|Key|..];
    assert rest[LineLength(rest)..] == "\n";
    assert rest[..LineLength(rest)] == v;
    BreakScan(v);
  }

  lemma BreakScan(v: string)
    ensures Values("\n") == [] && Skeleton("\n") == "\n" && ReplaceAll("\n", v) == "\n"
  {
    KeyNoBreak();
    assert !(Key <= "\n");
  }

  /** A text that does not start with the key is scanned from its second character. */
  lemma SkipFirst(u: string, v: string)
    requires |u| > 0 && !(Key <= u)
    ensures Values(u) == Values(u[1..])
    ensures Skeleton(u) == [u[0]] + Skeleton(u[1..])
    ensures ReplaceAll(u, v) == [u[0]] + ReplaceAll(u[1..], v)
  {
  }

  /** The same line after a line break. */
  lemma BrokenSettingLine(v: string)
    requires OneLine(v)
    ensures Values("\n" + Key + v + "\n") == [v]
    ensures Skeleton("\n" + Key + v + "\n") == "\n" + Key + "\n"
    ensures ReplaceAll("\n" + Key + v + "\n", v) == "\n" + Key + v + "\n"
  {
    var line := Key + v + "\n";
    var u := "\n" + line;
    assert u == "\n" + Key + v + "\n";
    assert !(Key <= u) by {
      KeyNoBreak();
      PrefixByTake(Key, u);
      assert u[0] != Key[0];
    }
    SkipFirst(u, v);
    assert u[1..] == line;
    SettingLine(v);
  }

  /**
   * What the written `.env` says: it mentions the key at least once, every
   * value after the key is `v`; if the old file mentioned the key, its text
   * outside those values is kept and the number of settings is unchanged, and
   * otherwise the old text is kept verbatim in front of the one new setting.
   */
  lemma RewriteMeaning(content: Option<string>, v: string)
    requires OneLine(v)
    ensures var out := Rewrite(content, v);
            |Values(out)| > 0 && Values(out) == Repeat(v, |Values(out)|)
    ensures content.Some? && Text.Includes(content.value, Key) ==>
              Skeleton(Rewrite(content, v)) == Skeleton(content.value) &&
              |Values(Rewrite(content, v))| == |Values(content.value)|
    ensures content.Some? && !Text.Includes(content.value, Key) ==>
              Values(Rewrite(content, v)) == [v] &&
              Skeleton(Rewrite(content, v)) == content.value + "\n" + Key + "\n"
  {
    match content
    case None => SettingLine(v);
    case Some(c) =>
      if Text.Includes(c, Key) {
        RewriteMeaningPresent(c, v);
      } else {
        RewriteMeaningAbsent(c, v);
      }
  }

  lemma RewriteMeaningPresent(c: string, v: string)
    requires OneLine(v) && Text.Includes(c, Key)
    ensures Values(ReplaceAll(c, v)) == Repeat(v, |Values(c)|) && |Values(c)| > 0
    ensures Skeleton(ReplaceAll(c, v)) == Skeleton(c)
  {
    ReplaceAllMeaning(c, v);
    ValuesExist(c);
  }

  lemma RewriteMeaningAbsent(c: string, v: string)
    requires OneLine(v) && !Text.Includes(c, Key)
    ensures Values(c + "\n" + Key + v + "\n") == [v]
    ensures Skeleton(c + "\n" + Key + v + "\n") == c + "\n" + Key + "\n"
  {
    BrokenSettingLine(v);
    var u := "\n" + Key + v + "\n";
    AbsentShape(c, v);
    NoKeyPrefixScan(c, u);
  }

  /** The appended setting: the old text, then the setting line after a break. */
  lemma AbsentShape(c: string, v: string)
    requires !Text.Includes(c, Key)
    ensures NoKey(c)
    ensures c + "\n" + Key + v + "\n" == c + ("\n" + Key + v + "\n")
    ensures c + "\n" + Key + "\n" == c + ("\n" + Key + "\n")
  {
  }

  /** Running the script twice leaves the same `.env` as running it once. */
  lemma RewriteIdempotent(content: Option<string>, v: string)
    requires OneLine(v)
    ensures Rewrite(Some(Rewrite(content, v)), v) == Rewrite(content, v)
  {
    match content
    case None =>
      SettingLine(v);
      ValuesExist(Key + v + "\n");
    case Some(c) =>
      if Text.Includes(c, Key) {
        RewriteMeaningPresent(c, v);
        ValuesExist(ReplaceAll(c, v));
        ReplaceAllIdempotent(c, v);
      } else {
        RewriteAbsentIdempotent(c, v);
      }
  }

  lemma RewriteAbsentIdempotent(c: string, v: string)
    requires OneLine(v) && !Text.Includes(c, Key)
    ensures var out := c + "\n" + Key + v + "\n";
            Text.Includes(out, Key) && ReplaceAll(out, v) == out
  {
    RewriteMeaningAbsent(c, v);
    ValuesExist(c + "\n" + Key + v + "\n");
    BrokenSettingLine(v);
    AbsentShape(c, v);
    NoKeyPrefix(c, "\n" + Key + v + "\n", v);
  }
}
