/** Slash-separated paths: `String.prototype.split('/')` and joining the parts again. */
module SlashPaths {

  const SLASH: char := '/'

  /** `s.split('/')`. */
  function Split(s: string): (parts: seq<string>)
    ensures |parts| >= 1
  {
    if s == [] then [[]]
    else if s[0] == SLASH then [[]] + Split(s[1..])
    else var rest := Split(s[1..]); [[s[0]] + rest[0]] + rest[1..]
  }

  /** `parts.join('/')`. */
  function Join(parts: seq<string>): string
  {
    if parts == [] then []
    else if |parts| == 1 then parts[0]
    else parts[0] + [SLASH] + Join(parts[1..])
  }

  lemma {:induction false} JoinSplit(s: string)
    ensures Join(Split(s)) == s
    decreases |s|
  {
    if s != [] {
      var rest := Split(s[1..]);
      JoinSplit(s[1..]);
      assert s == [s[0]] + s[1..];
      if s[0] == SLASH {
        assert ([[]] + rest)[1..] == rest;
      } else {
        assert Split(s)[1..] == rest[1..];
      }
    }
  }

  ghost predicate SlashFree(parts: seq<string>) {
    forall i :: 0 <= i < |parts| ==> SLASH !in parts[i]
  }

  lemma {:induction false} SplitWord(w: string)
    requires SLASH !in w
    ensures Split(w) == [w]
    decreases |w|
  {
    if w != [] {
      SplitWord(w[1..]);
      assert w == [w[0]] + w[1..];
    }
  }

  lemma {:induction false} SplitAt(w: string, s: string)
    requires SLASH !in w
    ensures Split(w + [SLASH] + s) == [w] + Split(s)
    decreases |w|
  {
    var t := w + [SLASH] + s;
    if w == [] {
      assert t[1..] == s && t[0] == SLASH;
    } else {
      assert t[1..] == w[1..] + [SLASH] + s;
      SplitAt(w[1..], s);
      assert w == [w[0]] + w[1..];
      assert ([w[1..]] + Split(s))[1..] == Split(s);
    }
  }

  /** Splitting undoes joining. */
  lemma {:induction false} SplitJoin(parts: seq<string>)
    requires parts != [] && SlashFree(parts)
    ensures Split(Join(parts)) == parts
    decreases |parts|
  {
    if |parts| == 1 {
      SplitWord(parts[0]);
    } else {
      SplitJoin(parts[1..]);
      SplitAt(parts[0], Join(parts[1..]));
    }
  }

  /** The characters of a path are the slashes between its parts and the characters of these. */
  lemma {:induction false} SplitChars(s: string)
    ensures SlashFree(Split(s))
    ensures forall part, c :: part in Split(s) && c in part ==> c in s
    decreases |s|
  {
    if s != [] {
      var rest := Split(s[1..]);
      SplitChars(s[1..]);
      forall part, c | part in Split(s) && c in part ensures c in s {
        if part !in rest {
          assert part == [s[0]] + rest[0];
          assert rest[0] in rest;
        }
      }
    }
  }

  lemma {:induction false} JoinChars(parts: seq<string>)
    requires parts != []
    ensures forall c :: c in Join(parts) ==> c == '/' || exists part :: part in parts && c in part
    decreases |parts|
  {
    var t := Join(parts);
    assert parts[0] in parts;
    if |parts| > 1 {
      JoinChars(parts[1..]);
      forall c | c in t ensures c == '/' || exists part :: part in parts && c in part {
        if c != '/' && c !in parts[0] {
          assert c in Join(parts[1..]);
        }
      }
    }
  }

  /** A joined path without empty parts starts and ends as its first and last part do. */
  lemma {:induction false} JoinEnds(parts: seq<string>)
    requires parts != [] && forall i :: 0 <= i < |parts| ==> parts[i] != ""
    ensures var t := Join(parts);
            t != [] && t[0] == parts[0][0] && t[|t| - 1] == parts[|parts| - 1][|parts[|parts| - 1]| - 1]
    decreases |parts|
  {
    if |parts| > 1 {
      var rest := parts[1..];
      assert rest[|rest| - 1] == parts[|parts| - 1];
      JoinEnds(rest);
      Ends(parts[0], Join(rest), Join(parts));
    }
  }

  lemma {:induction false} Ends(first: string, rest: string, t: string)
    requires first != "" && rest != "" && t == first + ['/'] + rest
    ensures t != "" && t[0] == first[0] && t[|t| - 1] == rest[|rest| - 1]
  {
  }
}
