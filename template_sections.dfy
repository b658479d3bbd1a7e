/**
 * Section extraction from a post's raw text: the meaning of `raw[/HEADER(.+?)\n\n/, 1]` where
 * HEADER is a literal such as `### 抽奖名称\n`. In Ruby's default mode `.` matches anything but a
 * line feed, so the lazy group can only end at the first line feed after the header, and the
 * match needs a second line feed right after it: the capture is the whole non-empty line that
 * follows the header, and that line must be followed by an empty line. The leftmost position
 * at which this succeeds wins.
 */
module TemplateSections {
  import opened Wrappers

  /** Number of characters before the first line feed of `u` (all of `u` if it has none). */
  function LineLength(u: string): (n: nat)
    ensures n <= |u|
    ensures forall k :: 0 <= k < n ==> u[k] != '\n'
    ensures n < |u| ==> u[n] == '\n'
  {
    if |u| == 0 || u[0] == '\n' then 0 else 1 + LineLength(u[1..])
  }

  /** The pattern `header(.+?)\n\n` matches at the very start of `s`. */
  predicate MatchesAt(s: string, header: string) {
    && |header| <= |s|
    && s[..|header|] == header
    && var n := LineLength(s[|header|..]);
       0 < n && |header| + n + 1 < |s| && s[|header| + n + 1] == '\n'
  }

  /** The text of group 1 of a match at the start of `s`. */
  function CaptureAt(s: string, header: string): string
    requires MatchesAt(s, header)
  {
    s[|header|..|header| + LineLength(s[|header|..])]
  }

  /** `raw[/header(.+?)\n\n/, 1]`: group 1 of the leftmost match, or `nil`. */
  function Section(raw: string, header: string): (r: Option<string>)
    ensures r.Some? ==> |r.value| > 0 && forall k :: 0 <= k < |r.value| ==> r.value[k] != '\n'
    decreases |raw|
  {
    if MatchesAt(raw, header) then Some(CaptureAt(raw, header))
    else if |raw| == 0 then None
    else Section(raw[1..], header)
  }

  /**
   * A match at the start of `s` capturing `c` is exactly `s` beginning with the header, then
   * `c`, a non-empty text without line feeds, then an empty line.
   */
  lemma MatchText(s: string, header: string, c: string)
    ensures (MatchesAt(s, header) && CaptureAt(s, header) == c)
        <==> (|c| > 0 && '\n' !in c && |header + c + "\n\n"| <= |s|
              && s[..|header + c + "\n\n"|] == header + c + "\n\n")
  {
    var m := |header + c + "\n\n"|;
    if MatchesAt(s, header) && CaptureAt(s, header) == c {
      var u := s[|header|..];
      var n := LineLength(u);
      assert n == |c|;
      forall k | 0 <= k < m ensures s[k] == (header + c + "\n\n")[k] {
        if k < |header| {
          assert s[..|header|][k] == s[k];
        } else if k < |header| + n {
          assert c[k - |header|] == s[k];
        } else if k == |header| + n {
          assert u[n] == s[k];
        }
      }
      assert '\n' !in c by {
        forall j | 0 <= j < |c| ensures c[j] != '\n' { assert c[j] == u[j]; }
      }
    }
    if |c| > 0 && '\n' !in c && m <= |s| && s[..m] == header + c + "\n\n" {
      assert s[..|header|] == (header + c + "\n\n")[..|header|] == header;
      var u := s[|header|..];
      forall k | 0 <= k < |c| ensures u[k] == c[k] && u[k] != '\n' {
        assert u[k] == s[|header| + k] == (header + c + "\n\n")[|header| + k];
      }
      assert u[|c|] == s[|header| + |c|] == (header + c + "\n\n")[|header| + |c|];
      assert s[|header| + |c| + 1] == (header + c + "\n\n")[|header| + |c| + 1];
      assert LineLength(u) == |c|;
      assert CaptureAt(s, header) == c;
    }
  }

  /**
   * `Section` finds the leftmost match: it is `nil` exactly when the pattern matches nowhere,
   * and otherwise it is the capture at the first position where it matches.
   */
  lemma SectionIsLeftmostMatch(raw: string, header: string)
    requires |header| > 0
    ensures Section(raw, header).None? <==> forall i :: 0 <= i <= |raw| ==> !MatchesAt(raw[i..], header)
    ensures Section(raw, header).Some? ==>
      exists i :: 0 <= i <= |raw| && MatchesAt(raw[i..], header)
        && Section(raw, header).value == CaptureAt(raw[i..], header)
        && forall j :: 0 <= j < i ==> !MatchesAt(raw[j..], header)
  {
    SectionNoneIffNoMatch(raw, header);
    SectionSomeIsLeftmost(raw, header);
  }

  lemma {:induction false} SectionNoneIffNoMatch(raw: string, header: string)
    requires |header| > 0
    ensures Section(raw, header).None? <==> forall i :: 0 <= i <= |raw| ==> !MatchesAt(raw[i..], header)
    decreases |raw|
  {
    assert raw[0..] == raw;
    if !MatchesAt(raw, header) && |raw| > 0 {
      SectionNoneIffNoMatch(raw[1..], header);
      forall i | 1 <= i <= |raw| ensures raw[i..] == raw[1..][i - 1..] {}
    }
  }

  lemma {:induction false} SectionSomeIsLeftmost(raw: string, header: string)
    requires |header| > 0
    ensures Section(raw, header).Some? ==>
      exists i :: 0 <= i <= |raw| && MatchesAt(raw[i..], header)
        && Section(raw, header).value == CaptureAt(raw[i..], header)
        && forall j :: 0 <= j < i ==> !MatchesAt(raw[j..], header)
    decreases |raw|
  {
    assert raw[0..] == raw;
    if !MatchesAt(raw, header) && |raw| > 0 {
      SectionSomeIsLeftmost(raw[1..], header);
      if Section(raw, header).Some? {
        var i :| 0 <= i <= |raw[1..]| && MatchesAt(raw[1..][i..], header)
          && Section(raw, header).value == CaptureAt(raw[1..][i..], header)
          && forall j :: 0 <= j < i ==> !MatchesAt(raw[1..][j..], header);
        assert raw[1..][i..] == raw[i + 1..];
        forall j | 0 <= j < i + 1 ensures !MatchesAt(raw[j..], header) {
          if j > 0 { assert raw[j..] == raw[1..][j - 1..]; }
        }
      }
    }
  }

  /** Without an empty line anywhere in the text, every section is `nil`. */
  lemma {:induction false} NoEmptyLineNoSection(raw: string, header: string)
    requires forall k :: 0 <= k < |raw| - 1 ==> !(raw[k] == '\n' && raw[k + 1] == '\n')
    ensures Section(raw, header) == None
    decreases |raw|
  {
    assert !MatchesAt(raw, header) by {
      if |header| <= |raw| {
        var u := raw[|header|..];
        var n := LineLength(u);
        if |header| + n + 1 < |raw| {
          assert u[n] == raw[|header| + n];
        }
      }
    }
    if |raw| > 0 {
      forall k | 0 <= k < |raw[1..]| - 1 ensures !(raw[1..][k] == '\n' && raw[1..][k + 1] == '\n') {
        assert raw[1..][k] == raw[k + 1] && raw[1..][k + 1] == raw[k + 2];
      }
      NoEmptyLineNoSection(raw[1..], header);
    }
  }

  // ---------------------------------------------------------------------------
  // Rendering a template and reading it back
  // ---------------------------------------------------------------------------

  /** A section header as the lottery form writes it: `### ` + title + line feed. */
  predicate IsHeader(h: string) {
    && |h| >= 5
    && h[..4] == "### "
    && h[|h| - 1] == '\n'
    && forall k :: 4 <= k < |h| - 1 ==> h[k] != '\n' && h[k] != '#'
  }

  /** A value the form can hold in a section: one non-empty line. */
  predicate IsFieldValue(v: string) {
    |v| > 0 && forall k :: 0 <= k < |v| ==> v[k] != '\n'
  }

  predicate WellFormedSections(secs: seq<(string, string)>) {
    forall i :: 0 <= i < |secs| ==> IsHeader(secs[i].0) && IsFieldValue(secs[i].1)
  }

  function RenderSection(header: string, value: string): string {
    header + value + "\n\n"
  }

  /** A template written as a sequence of (header, value) sections. */
  function Render(secs: seq<(string, string)>): string {
    if |secs| == 0 then "" else RenderSection(secs[0].0, secs[0].1) + Render(secs[1..])
  }

  /** The value of the first section with the given header. */
  function Lookup(secs: seq<(string, string)>, header: string): Option<string> {
    if |secs| == 0 then None
    else if secs[0].0 == header then Some(secs[0].1)
    else Lookup(secs[1..], header)
  }

  /**
   * No match of a different header starts inside a rendered section. A `#` in the value may
   * begin the header's text, but the header's line feed then falls on the section's first
   * line feed, and the empty line after it leaves the group `(.+?)` nothing to capture.
   */
  lemma NoMatchInside(h: string, v: string, rest: string, header: string)
    requires IsHeader(h) && IsHeader(header) && h != header && IsFieldValue(v)
    ensures forall r :: 0 <= r < |RenderSection(h, v)| ==> !MatchesAt((RenderSection(h, v) + rest)[r..], header)
  {
    var sec := RenderSection(h, v);
    var s := sec + rest;
    var p := |h| + |v|;
    assert s[p] == '\n' && s[p + 1] == '\n';
    assert header[0] == '#' && header[1] == '#' && header[2] == '#' && header[3] == ' ' by {
      assert header[..4][0] == header[0] && header[..4][1] == header[1];
      assert header[..4][2] == header[2] && header[..4][3] == header[3];
    }
    assert h[3] == ' ' && s[3] == h[3] by { assert h[..4][3] == h[3]; }
    forall r | 0 <= r < |sec| ensures !MatchesAt(s[r..], header) {
      if |header| <= |s| - r {
        if r < |h| || p <= r {
          // an offset below |header| at which the text and the header differ
          var k: nat;
          if r == 0 {
            if |h| < |header| {
              k := |h| - 1;
              assert s[k] == h[k] == '\n' && header[k] != '\n';
            } else if |h| == |header| {
              assert exists j :: 0 <= j < |h| && h[j] != header[j];
              k :| 0 <= k < |h| && h[k] != header[k];
              assert s[k] == h[k];
            } else {
              k := |header| - 1;
              assert s[k] == h[k] != '\n';
            }
          } else if r < 3 {
            k := 3 - r;
          } else {
            k := 0;
            if r < |h| {
              assert s[r] == h[r];
            }
            assert s[r] != '#';
          }
          assert s[r..][..|header|][k] == s[r + k] != header[k];
        } else {
          ValueNoMatch(s, v, r, p, header);
        }
      }
    }
  }

  /**
   * A match cannot start at position `r` of a value line that ends at the line feed at `p`
   * and is followed by an empty line.
   */
  lemma ValueNoMatch(s: string, v: string, r: nat, p: nat, header: string)
    requires IsHeader(header) && r < p && p + 1 < |s| && s[p] == '\n' && s[p + 1] == '\n'
    requires forall j :: r <= j < p ==> s[j] != '\n'
    ensures !MatchesAt(s[r..], header)
  {
    var t := s[r..];
    var e := |header| - 1;
    if |header| <= |t| {
      assert forall k :: 0 <= k < e ==> header[k] != '\n' by {
        assert header[..4][0] == header[0] && header[..4][1] == header[1];
        assert header[..4][2] == header[2] && header[..4][3] == header[3];
      }
      if r + e < p {
        assert t[..|header|][e] == s[r + e] != header[e];
      } else if p < r + e {
        assert t[..|header|][p - r] == s[p] != header[p - r];
      } else {
        assert t[|header|..][0] == s[p + 1];
        assert LineLength(t[|header|..]) == 0;
      }
    }
  }

  /** A prefix in which no match starts can be skipped. */
  lemma {:induction false} SkipPrefix(a: string, b: string, header: string)
    requires forall r :: 0 <= r < |a| ==> !MatchesAt((a + b)[r..], header)
    ensures Section(a + b, header) == Section(b, header)
    decreases |a|
  {
    if |a| == 0 {
      assert a + b == b;
    } else {
      assert (a + b)[0..] == a + b;
      assert (a + b)[1..] == a[1..] + b;
      forall r | 0 <= r < |a[1..]| ensures !MatchesAt((a[1..] + b)[r..], header) {
        assert (a[1..] + b)[r..] == (a + b)[r + 1..];
      }
      SkipPrefix(a[1..], b, header);
    }
  }

  /** Reading a rendered template finds, for each header, the value of its first section. */
  lemma {:induction false} SectionOfRender(secs: seq<(string, string)>, header: string)
    requires WellFormedSections(secs) && IsHeader(header)
    ensures Section(Render(secs), header) == Lookup(secs, header)
    decreases |secs|
  {
    if |secs| == 0 {
      assert !MatchesAt("", header);
    } else {
      var h, v := secs[0].0, secs[0].1;
      var rest := Render(secs[1..]);
      assert WellFormedSections(secs[1..]) by {
        forall i | 0 <= i < |secs[1..]| ensures IsHeader(secs[1..][i].0) && IsFieldValue(secs[1..][i].1) {
          assert secs[1..][i] == secs[i + 1];
        }
      }
      if h == header {
        var s := RenderSection(h, v) + rest;
        assert s == header + v + "\n\n" + rest;
        assert '\n' !in v by {
          forall j | 0 <= j < |v| ensures v[j] != '\n' {}
        }
        assert s[..|header + v + "\n\n"|] == header + v + "\n\n";
        MatchText(s, header, v);
      } else {
        NoMatchInside(h, v, rest, header);
        SkipPrefix(RenderSection(h, v), rest, header);
        SectionOfRender(secs[1..], header);
      }
    }
  }

  /** Looking up in a concatenation looks in the first part, then in the second. */
  lemma {:induction false} LookupConcat(a: seq<(string, string)>, b: seq<(string, string)>, header: string)
    ensures Lookup(a + b, header) == if Lookup(a, header).Some? then Lookup(a, header) else Lookup(b, header)
    decreases |a|
  {
    if |a| == 0 {
      assert a + b == b;
    } else {
      assert (a + b)[0] == a[0] && (a + b)[1..] == a[1..] + b;
      LookupConcat(a[1..], b, header);
    }
  }
}
