/** The one pure step of the paginated fetch loop: reading the next page's URL
    out of a response's `Link` header. */
module Pagination {

  /** What the header-parsing step yields: no next page, the next page's URL,
      or an IndexError, raised when the first segment naming `rel="next"` has
      no '<' (it is not a request exception, so nothing in the fetch loop
      catches it). */
  datatype NextLink = NoNext | Next(url: string) | Malformed

  const RelNext: string := "rel=\"next\""

  /** `pat in s` on strings. */
  predicate Contains(s: string, pat: string)
  {
    exists i :: 0 <= i <= |s| && pat <= s[i..]
  }

  function IndexOf(s: string, c: char): (i: nat)
    requires c in s
    ensures i < |s| && s[i] == c && c !in s[..i]
    decreases |s|
  {
    if s[0] == c then 0
    else
      var j := IndexOf(s[1..], c);
      assert s[..j + 1] == [s[0]] + s[1..][..j];
      j + 1
  }

  /** `s.split(sep)` for a one-character separator. */
  function Split(s: string, sep: char): (parts: seq<string>)
    ensures |parts| >= 1
    ensures forall k :: 0 <= k < |parts| ==> sep !in parts[k]
    decreases |s|
  {
    if sep !in s then [s]
    else
      var i := IndexOf(s, sep);
      [s[..i]] + Split(s[i + 1..], sep)
  }

  /** `sep.join(parts)`. */
  function Join(parts: seq<string>, sep: char): string
    requires |parts| >= 1
    decreases |parts|
  {
    if |parts| == 1 then parts[0] else parts[0] + [sep] + Join(parts[1..], sep)
  }

  /** Splitting loses nothing: joining the pieces gives back the string. */
  lemma {:induction false} JoinSplit(s: string, sep: char)
    ensures Join(Split(s, sep), sep) == s
    decreases |s|
  {
    if sep in s {
      var i := IndexOf(s, sep);
      var rest := Split(s[i + 1..], sep);
      var parts := Split(s, sep);
      assert parts == [s[..i]] + rest;
      assert parts[0] == s[..i] && parts[1..] == rest;
      JoinSplit(s[i + 1..], sep);
      assert Join(parts, sep) == s[..i] + [sep] + s[i + 1..];
      assert s == s[..i] + [sep] + s[i + 1..];
    } else {
      assert Split(s, sep) == [s];
    }
  }

  /** The first piece of a split is the text up to the first separator, or
      all of it when there is none. */
  lemma FirstPiece(s: string, sep: char)
    ensures var p := Split(s, sep)[0];
      p <= s && (|p| == |s| || s[|p|] == sep)
  {
    if sep in s {
      var i := IndexOf(s, sep);
      assert Split(s, sep)[0] == s[..i];
    } else {
      assert Split(s, sep) == [s];
    }
  }

  lemma IndexOfJoin(a: string, sep: char, b: string)
    requires sep !in a
    ensures IndexOf(a + [sep] + b, sep) == |a|
  {
    var s := a + [sep] + b;
    assert s[|a|] == sep;
    assert s[..|a|] == a;
  }

  /** Splitting inverts joining pieces that do not contain the separator. */
  lemma {:induction false} SplitJoin(parts: seq<string>, sep: char)
    requires |parts| >= 1
    requires forall k :: 0 <= k < |parts| ==> sep !in parts[k]
    ensures Split(Join(parts, sep), sep) == parts
    decreases |parts|
  {
    if |parts| > 1 {
      var rest := Join(parts[1..], sep);
      var s := parts[0] + [sep] + rest;
      IndexOfJoin(parts[0], sep, rest);
      assert s[|parts[0]|] == sep;
      assert s[..|parts[0]|] == parts[0];
      assert s[|parts[0]| + 1..] == rest;
      SplitJoin(parts[1..], sep);
      assert parts == [parts[0]] + parts[1..];
    }
  }

  /** `link.split('<')[1].split('>')[0]`. */
  function UrlOf(segment: string): NextLink
  {
    var pieces := Split(segment, '<');
    if |pieces| < 2 then Malformed else Next(Split(pieces[1], '>')[0])
  }

  /** The segments after the first one naming `rel="next"` are never looked at. */
  function FirstNext(segments: seq<string>): NextLink
    decreases |segments|
  {
    if |segments| == 0 then NoNext
    else if Contains(segments[0], RelNext) then UrlOf(segments[0])
    else FirstNext(segments[1..])
  }

  /** The whole step: an empty header means no next page. */
  function NextLinkOf(links: string): NextLink
  {
    if links == "" then NoNext else FirstNext(Split(links, ','))
  }

  /** The pagination step of `make_request`: walk the comma-separated
      segments and stop at the first one naming `rel="next"`. */
  method NextUrl(links: string) returns (next: NextLink)
    ensures next == NextLinkOf(links)
  {
    next := NoNext;
    if links != "" {
      var segments := Split(links, ',');
      var i := 0;
      while i < |segments|
        invariant 0 <= i <= |segments|
        invariant FirstNext(segments[i..]) == FirstNext(segments)
        invariant next == NoNext
      {
        if Contains(segments[i], RelNext) {
          next := UrlOf(segments[i]);
          break;
        }
        assert segments[i..][1..] == segments[i + 1..];
        i := i + 1;
      }
    }
  }

  /** A segment yields an error exactly when it has no '<'; otherwise the URL
      is the text after its first '<', up to the next '<' or '>' or the end. */
  lemma UrlOfCharacterized(segment: string)
    ensures UrlOf(segment) == Malformed <==> '<' !in segment
    ensures '<' in segment ==>
      var i := IndexOf(segment, '<');
      && UrlOf(segment).Next?
      && var u := UrlOf(segment).url;
      && u <= segment[i + 1..]
      && '<' !in u && '>' !in u
      && (i + 1 + |u| == |segment| || segment[i + 1 + |u|] == '<' || segment[i + 1 + |u|] == '>')
  {
    if '<' in segment {
      var i := IndexOf(segment, '<');
      var after := segment[i + 1..];
      var pieces := Split(segment, '<');
      assert pieces == [segment[..i]] + Split(after, '<');
      var p1 := Split(after, '<')[0];
      assert pieces[1] == p1;
      FirstPiece(after, '<');
      var u := Split(p1, '>')[0];
      FirstPiece(p1, '>');
      assert UrlOf(segment) == Next(u);
      assert u <= after;
      if |u| < |after| {
        if |u| == |p1| {
          assert segment[i + 1 + |u|] == after[|p1|];
        } else {
          assert segment[i + 1 + |u|] == p1[|u|];
        }
      }
    } else {
      assert Split(segment, '<') == [segment];
    }
  }

  /** No next page exactly when no segment names `rel="next"`; otherwise the
      result comes from the first segment that does. */
  lemma {:induction false} NextLinkFirstMatch(links: string)
    ensures var segments := Split(links, ',');
      && (NextLinkOf(links) == NoNext <==> forall k :: 0 <= k < |segments| ==> !Contains(segments[k], RelNext))
      && (NextLinkOf(links) != NoNext ==>
            exists k :: (0 <= k < |segments| && Contains(segments[k], RelNext)
                         && (forall j :: 0 <= j < k ==> !Contains(segments[j], RelNext))
                         && NextLinkOf(links) == UrlOf(segments[k])))
  {
    var segments := Split(links, ',');
    if links == "" {
      assert segments == [""];
      assert !Contains("", RelNext);
    } else {
      FirstNextFirstMatch(segments);
    }
  }

  lemma {:induction false} FirstNextFirstMatch(segments: seq<string>)
    ensures FirstNext(segments) == NoNext <==> forall k :: 0 <= k < |segments| ==> !Contains(segments[k], RelNext)
    ensures FirstNext(segments) != NoNext ==>
            exists k :: (0 <= k < |segments| && Contains(segments[k], RelNext)
                         && (forall j :: 0 <= j < k ==> !Contains(segments[j], RelNext))
                         && FirstNext(segments) == UrlOf(segments[k]))
    decreases |segments|
  {
    if |segments| > 0 {
      var tail := segments[1..];
      FirstNextFirstMatch(tail);
      if !Contains(segments[0], RelNext) && FirstNext(tail) != NoNext {
        var k :| 0 <= k < |tail| && Contains(tail[k], RelNext)
            && (forall j :: 0 <= j < k ==> !Contains(tail[j], RelNext))
            && FirstNext(tail) == UrlOf(tail[k]);
        assert segments[k + 1] == tail[k];
        forall j | 0 <= j < k + 1 ensures !Contains(segments[j], RelNext) {
          if j > 0 { assert segments[j] == tail[j - 1]; }
        }
      }
      if !Contains(segments[0], RelNext) {
        assert (forall k :: 0 <= k < |tail| ==> !Contains(tail[k], RelNext)) <==>
               (forall k :: 0 <= k < |segments| ==> !Contains(segments[k], RelNext)) by {
          forall k | 0 < k < |segments| ensures segments[k] == tail[k - 1] { }
        }
      }
    }
  }
}
