/** The authentication middleware: the bearer token is what follows the
    single "Bearer " in the Authorization header, and the request goes on
    only when the session store accepts that token. */
module Middleware {
  import opened Model

  const BearerSep: string := "Bearer "

  // ---------------------------------------------------------------------
  // Splitting a string on a separator

  /** `strings.Split(s, sep)` for a non-empty `sep`: the pieces of `s`
      around each occurrence of `sep`, found left to right without overlap. */
  function Split(s: string, sep: string): (r: seq<string>)
    requires |sep| > 0
    ensures |r| >= 1
    decreases |s|
  {
    if |s| < |sep| then [s]
    else if s[..|sep|] == sep then [""] + Split(s[|sep|..], sep)
    else
      var rest := Split(s[1..], sep);
      [[s[0]] + rest[0]] + rest[1..]
  }

  /** `strings.Join(pieces, sep)`. */
  function Join(pieces: seq<string>, sep: string): string
    requires |pieces| >= 1
    decreases |pieces|
  {
    if |pieces| == 1 then pieces[0] else pieces[0] + sep + Join(pieces[1..], sep)
  }

  /** Number of occurrences of `sep` in `s`, counted as `Split` finds them. */
  function Count(s: string, sep: string): nat
    requires |sep| > 0
    decreases |s|
  {
    if |s| < |sep| then 0
    else if s[..|sep|] == sep then 1 + Count(s[|sep|..], sep)
    else Count(s[1..], sep)
  }

  /** `sep` occurs in `s` starting at index `i`. */
  ghost predicate OccursAt(s: string, sep: string, i: nat) {
    i + |sep| <= |s| && s[i..i + |sep|] == sep
  }

  ghost predicate Contains(s: string, sep: string) {
    exists i: nat :: OccursAt(s, sep, i)
  }

  lemma JoinCons(c: char, p: string, tail: seq<string>, sep: string)
    ensures Join([[c] + p] + tail, sep) == [c] + Join([p] + tail, sep)
  {
    if tail != [] {
      assert ([[c] + p] + tail)[1..] == tail;
      assert ([p] + tail)[1..] == tail;
    }
  }

  /** Joining the pieces with the separator gives the string back. */
  lemma {:induction false} SplitJoin(s: string, sep: string)
    requires |sep| > 0
    ensures Join(Split(s, sep), sep) == s
    decreases |s|
  {
    if |s| < |sep| {
    } else if s[..|sep|] == sep {
      var after := s[|sep|..];
      var tail := Split(after, sep);
      assert Split(s, sep) == [""] + tail;
      SplitJoin(after, sep);
      assert ([""] + tail)[1..] == tail;
      assert Join([""] + tail, sep) == "" + sep + Join(tail, sep);
      assert s == sep + after;
    } else {
      var rest := Split(s[1..], sep);
      assert Split(s, sep) == [[s[0]] + rest[0]] + rest[1..];
      SplitJoin(s[1..], sep);
      assert [rest[0]] + rest[1..] == rest;
      JoinCons(s[0], rest[0], rest[1..], sep);
      assert s == [s[0]] + s[1..];
    }
  }

  /** There is one more piece than there are occurrences. */
  lemma {:induction false} SplitCount(s: string, sep: string)
    requires |sep| > 0
    ensures |Split(s, sep)| == Count(s, sep) + 1
    decreases |s|
  {
    if |s| < |sep| {
    } else if s[..|sep|] == sep {
      SplitCount(s[|sep|..], sep);
    } else {
      SplitCount(s[1..], sep);
    }
  }

  /** A string containing the separator has at least one occurrence counted. */
  lemma {:induction false} ContainsCounted(s: string, sep: string)
    requires |sep| > 0 && Contains(s, sep)
    ensures Count(s, sep) >= 1
    decreases |s|
  {
    var i: nat :| OccursAt(s, sep, i);
    if s[..|sep|] != sep {
      assert i > 0;
      assert s[1..][i - 1..i - 1 + |sep|] == s[i..i + |sep|];
      assert OccursAt(s[1..], sep, i - 1);
      ContainsCounted(s[1..], sep);
    }
  }

  /** A string without the separator is a single piece. */
  lemma {:induction false} SplitWithout(s: string, sep: string)
    requires |sep| > 0 && !Contains(s, sep)
    ensures Split(s, sep) == [s]
    decreases |s|
  {
    if |s| >= |sep| {
      assert !OccursAt(s, sep, 0);
      assert !Contains(s[1..], sep) by {
        forall i: nat | OccursAt(s[1..], sep, i) ensures false {
          assert s[1..][i..i + |sep|] == s[i + 1..i + 1 + |sep|];
          assert OccursAt(s, sep, i + 1);
        }
      }
      SplitWithout(s[1..], sep);
      assert [s[0]] + s[1..] == s;
    }
  }

  /** The first piece is a prefix of the string. */
  lemma {:induction false} FirstPieceIsPrefix(s: string, sep: string)
    requires |sep| > 0
    ensures Split(s, sep)[0] <= s
    decreases |s|
  {
    if |s| >= |sep| && s[..|sep|] != sep {
      FirstPieceIsPrefix(s[1..], sep);
    }
  }

  /** A character put in front of a string without the separator does not
      create one, unless it starts an occurrence at the front. */
  lemma ConsFree(c: char, q: string, sep: string)
    requires |sep| > 0 && !Contains(q, sep) && !OccursAt([c] + q, sep, 0)
    ensures !Contains([c] + q, sep)
  {
    var p := [c] + q;
    forall i: nat | OccursAt(p, sep, i) ensures false {
      if i > 0 {
        assert p[i..i + |sep|] == q[i - 1..i - 1 + |sep|];
        assert OccursAt(q, sep, i - 1);
      }
    }
  }

  /** No piece contains the separator. */
  lemma {:induction false} PiecesAreFree(s: string, sep: string)
    requires |sep| > 0
    ensures forall k :: 0 <= k < |Split(s, sep)| ==> !Contains(Split(s, sep)[k], sep)
    decreases |s|
  {
    var r := Split(s, sep);
    if |s| < |sep| {
      assert !Contains(s, sep);
    } else if s[..|sep|] == sep {
      var tail := Split(s[|sep|..], sep);
      assert r == [""] + tail;
      PiecesAreFree(s[|sep|..], sep);
      assert !Contains("", sep);
      forall k | 1 <= k < |r| ensures !Contains(r[k], sep) {
        assert r[k] == tail[k - 1];
      }
    } else {
      var rest := Split(s[1..], sep);
      var p := [s[0]] + rest[0];
      assert r == [p] + rest[1..];
      PiecesAreFree(s[1..], sep);
      FirstPieceIsPrefix(s[1..], sep);
      assert !OccursAt(p, sep, 0) by {
        if |sep| <= |p| {
          assert p[..|sep|] == s[..|sep|];
        }
      }
      ConsFree(s[0], rest[0], sep);
      forall k | 1 <= k < |r| ensures !Contains(r[k], sep) {
        assert r[k] == rest[k];
      }
    }
  }

  // ---------------------------------------------------------------------
  // The middleware

  /** The token of an Authorization header: the second piece when splitting
      on "Bearer " gives exactly two. */
  function ExtractBearer(header: string): (r: Option<string>)
    ensures r.Some? <==> Count(header, BearerSep) == 1
    ensures r.Some? ==> |Split(header, BearerSep)| == 2 && r.value == Split(header, BearerSep)[1]
  {
    SplitCount(header, BearerSep);
    var pieces := Split(header, BearerSep);
    if |pieces| != 2 then None else Some(pieces[1])
  }

  /** An extracted token is the text after the one "Bearer ": the header is
      some text, "Bearer ", then the token, and neither part holds another
      "Bearer ". The text before it plays no part. */
  lemma TokenFollowsBearer(header: string)
    requires ExtractBearer(header).Some?
    ensures var before := Split(header, BearerSep)[0];
      var token := ExtractBearer(header).value;
      && header == before + BearerSep + token
      && !Contains(before, BearerSep) && !Contains(token, BearerSep)
  {
    var pieces := Split(header, BearerSep);
    SplitCount(header, BearerSep);
    SplitJoin(header, BearerSep);
    PiecesAreFree(header, BearerSep);
    assert pieces[1..] == [pieces[1]];
  }

  /** The header "Bearer <token>" yields the token, for any token that does
      not itself hold "Bearer ". */
  lemma BearerHeaderAccepted(token: string)
    requires !Contains(token, BearerSep)
    ensures ExtractBearer(BearerSep + token) == Some(token)
  {
    var h := BearerSep + token;
    assert h[..|BearerSep|] == BearerSep;
    assert h[|BearerSep|..] == token;
    SplitWithout(token, BearerSep);
  }

  /** A header with "Bearer " twice is refused, and so is an empty one. */
  lemma RejectedHeaders(a: string, b: string)
    ensures ExtractBearer(BearerSep + a + BearerSep + b).None?
    ensures ExtractBearer("").None?
  {
    var h := BearerSep + a + BearerSep + b;
    assert h[..|BearerSep|] == BearerSep;
    var tail := h[|BearerSep|..];
    assert tail == a + BearerSep + b;
    assert tail[|a|..|a| + |BearerSep|] == BearerSep;
    assert OccursAt(tail, BearerSep, |a|);
    ContainsCounted(tail, BearerSep);
  }

  /** How the middleware ends: refused with a status, or the next handler
      is called once with the user in the request context. */
  datatype AuthOutcome = Reject(code: Code) | Next(user: User)

  /** `Auth`: extract the token and hand it to the session reader `read`;
      every failure answers 401 without calling the next handler. */
  function Auth(header: string, read: string -> Result<User, Error>): (r: AuthOutcome)
    ensures r.Reject? ==> r.code == Unauthorized401
    ensures r.Next? <==> ExtractBearer(header).Some? && read(ExtractBearer(header).value).Success?
    ensures r.Next? ==> r.user == read(ExtractBearer(header).value).value
  {
    match ExtractBearer(header)
    case None => Reject(Unauthorized401)
    case Some(token) =>
      match read(token)
      case Failure(_) => Reject(Unauthorized401)
      case Success(u) => Next(u)
  }

  /** A request whose header is "Bearer <token>" goes on exactly when the
      session reader accepts that token, carrying the user it returns. */
  lemma AuthWithBearerHeader(token: string, read: string -> Result<User, Error>)
    requires !Contains(token, BearerSep)
    ensures Auth(BearerSep + token, read) == (if read(token).Success? then Next(read(token).value) else Reject(Unauthorized401))
  {
    BearerHeaderAccepted(token);
  }
}
