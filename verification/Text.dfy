/** Searching for a short text in a longer one, of which perhaps only a part has arrived. */
module Text {

  const CRLF := "\r\n"

  predicate OccursAt(s: string, needle: string, i: nat) {
    i + |needle| <= |s| && s[i..i + |needle|] == needle
  }

  /** The first occurrence of `needle`, or the length of `s` if there is none. */
  function Find(s: string, needle: string): (pos: nat)
    requires needle != ""
    ensures pos <= |s|
    ensures pos < |s| ==> OccursAt(s, needle, pos)
    ensures forall i: nat :: i < pos ==> !OccursAt(s, needle, i)
  {
    FindFrom(s, needle, 0)
  }

  function FindFrom(s: string, needle: string, off: nat): (pos: nat)
    requires needle != "" && off <= |s|
    ensures off <= pos <= |s|
    ensures pos < |s| ==> OccursAt(s, needle, pos)
    ensures forall i: nat :: off <= i < pos ==> !OccursAt(s, needle, i)
    decreases |s| - off
  {
    if |s| < off + |needle| then |s|
    else if OccursAt(s, needle, off) then off
    else FindFrom(s, needle, off + 1)
  }

  predicate Occurs(s: string, needle: string) {
    exists i: nat :: i <= |s| && OccursAt(s, needle, i)
  }

  /** No proper end of the needle is a beginning of it, so two occurrences cannot overlap. */
  predicate CannotOverlapItself(needle: string) {
    && needle != ""
    && forall k :: 0 < k < |needle| ==> needle[k..] != needle[..|needle| - k]
  }

  lemma FirstCharacterIsUnique(needle: string)
    requires needle != "" && forall k :: 0 < k < |needle| ==> needle[k] != needle[0]
    ensures CannotOverlapItself(needle)
  {
    forall k | 0 < k < |needle|
      ensures needle[k..] != needle[..|needle| - k]
    {
      assert needle[k..][0] == needle[k] && needle[..|needle| - k][0] == needle[0];
    }
  }

  lemma LineEndIsUnique(line: string)
    requires line != "" && '\r' !in line && line[0] != '\n'
    ensures CannotOverlapItself(line + CRLF)
  {
    var needle := line + CRLF;
    forall k | 0 < k < |needle|
      ensures needle[k..] != needle[..|needle| - k]
    {
      var m := |needle| - k;
      assert needle[k..][m - 1] == '\n' && needle[..m][m - 1] == needle[m - 1];
      if m > 1 {
        assert needle[k..][m - 2] == '\r' && needle[..m][m - 2] == needle[m - 2];
        assert m - 2 < |line| && needle[m - 2] == line[m - 2];
      }
    }
  }

  lemma NoOccurrenceBefore(p: string, needle: string, t: string, i: nat)
    requires CannotOverlapItself(needle) && !Occurs(p, needle) && i < |p|
    ensures !OccursAt(p + needle + t, needle, i)
  {
    var s := p + needle + t;
    if i + |needle| <= |p| {
      assert s[i..i + |needle|] == p[i..i + |needle|];
      assert !OccursAt(p, needle, i);
    } else if i + |needle| <= |s| {
      var k := |p| - i;
      assert s[i..i + |needle|][k..] == s[|p|..i + |needle|] == needle[..|needle| - k];
    }
  }

  lemma OccursInPart(buf: string, rest: string, needle: string, i: nat)
    requires i + |needle| <= |buf|
    ensures OccursAt(buf, needle, i) == OccursAt(buf + rest, needle, i)
  {
    assert buf[i..i + |needle|] == (buf + rest)[i..i + |needle|];
  }

  /** The needle is found where it was put, unless it has not fully arrived. */
  lemma FindInPart(buf: string, rest: string, p: string, needle: string, t: string)
    requires buf + rest == p + needle + t
    requires needle != "" && (p == "" || (CannotOverlapItself(needle) && !Occurs(p, needle)))
    ensures Find(buf, needle) == if |p| + |needle| <= |buf| then |p| else |buf|
  {
    var s := p + needle + t;
    var pos := Find(buf, needle);
    assert s[|p|..|p| + |needle|] == needle;
    if pos < |buf| {
      OccursInPart(buf, rest, needle, pos);
      if pos < |p| {
        NoOccurrenceBefore(p, needle, t, pos);
      }
    }
    if |p| + |needle| <= |buf| {
      OccursInPart(buf, rest, needle, |p|);
    }
  }

  /** Finding the needle in the part that arrived, and cutting there. */
  lemma CutInPart(buf: string, rest: string, p: string, needle: string, t: string)
    requires buf + rest == p + needle + t
    requires needle != "" && (p == "" || (CannotOverlapItself(needle) && !Occurs(p, needle)))
    ensures Find(buf, needle) == if |p| + |needle| <= |buf| then |p| else |buf|
    ensures |p| + |needle| <= |buf| ==> buf[..|p|] == p && buf[|p| + |needle|..] + rest == t
    ensures |buf| < |p| + |needle| ==> rest != ""
  {
    FindInPart(buf, rest, p, needle, t);
    if |p| + |needle| <= |buf| {
      assert buf[..|p|] == (buf + rest)[..|p|] == p;
      assert buf[|p| + |needle|..] + rest == (buf + rest)[|p| + |needle|..] == t;
    }
  }

  lemma CrlfCannotOverlap()
    ensures CannotOverlapItself(CRLF)
  {
    FirstCharacterIsUnique(CRLF);
  }

  lemma OccursInSuffix(s: string, needle: string, k: nat)
    requires k <= |s| && !Occurs(s, needle)
    ensures !Occurs(s[k..], needle)
  {
    if Occurs(s[k..], needle) {
      var i: nat :| i <= |s[k..]| && OccursAt(s[k..], needle, i);
      assert s[k..][i..i + |needle|] == s[k + i..k + i + |needle|];
      assert OccursAt(s, needle, k + i);
    }
  }

  lemma NoCrNoLineBreak(line: string)
    requires '\r' !in line
    ensures !Occurs(line, CRLF)
  {
    forall i: nat | i + |CRLF| <= |line|
      ensures !OccursAt(line, CRLF, i)
    {
      assert line[i..i + |CRLF|][0] == line[i];
    }
  }
}
