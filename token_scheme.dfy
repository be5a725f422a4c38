/** The stateless password-reset token of `PasswordResetRequest.generate_token`
    and the acceptance rule of `PasswordResetConfirm.check_token`
    (exchange_api/api/views.py).

    A token is the first 32 hex characters of the SHA-256 digest of
    "{email}-{id}-{password}-{bucket}", where the bucket is the current Unix
    time floored to the hour. Nothing is stored: a presented token is accepted
    when it equals the token recomputed for one of the 24 most recent hour
    buckets. SHA-256 is not modelled; it is the parameter `h`, which maps the
    canonical string to its hex digest, or to `None` when encoding or hashing
    raises. */
module TokenScheme {
  import opened Wrappers
  import opened Decimal

  const HourSeconds: int := 3600
  /** Number of hour buckets `check_token` tries. */
  const WindowHours: int := 24
  /** Number of leading hex characters of the digest kept as the token. */
  const TokenLength: nat := 32
  const HexDigestLength: nat := 64

  /** The fields of a user that the token is made from; `password` is the
      stored password hash, not the raw password. */
  datatype UserFields = UserFields(email: string, id: int, password: string)

  /** `sha256(s.encode()).hexdigest()`, or `None` where that raises. */
  type Digest = string -> Option<string>

  predicate IsHexChar(c: char) { '0' <= c <= '9' || 'a' <= c <= 'f' }

  /** What SHA-256's `hexdigest()` returns: 64 lower-case hex characters. */
  ghost predicate IsSha256Hex(h: Digest)
  {
    forall s :: h(s).Some? ==>
      |h(s).value| == HexDigestLength && forall i :: 0 <= i < |h(s).value| ==> IsHexChar(h(s).value[i])
  }

  /** Hashing a string never raises (as for any string without lone surrogates). */
  ghost predicate NeverRaises(h: Digest)
  {
    forall s :: h(s).Some?
  }

  /** `t - t % 3600`: the time floored to the start of its hour. */
  function Bucket(t: int): (b: int)
    ensures b % HourSeconds == 0
    ensures b <= t < b + HourSeconds
    ensures b == (t / HourSeconds) * HourSeconds
  {
    t - t % HourSeconds
  }

  /** The string that is hashed: "{email}-{id}-{password}-{bucket}". */
  function Canonical(u: UserFields, bucket: int): (r: string)
    ensures |r| == |u.email| + |IntToString(u.id)| + |u.password| + |IntToString(bucket)| + 3
    ensures r[..|u.email| + 1] == u.email + "-"
    ensures r[|r| - |IntToString(bucket)| - 1..] == "-" + IntToString(bucket)
  {
    u.email + "-" + IntToString(u.id) + "-" + u.password + "-" + IntToString(bucket)
  }

  /** `sha256(s.encode()).hexdigest()[:32]`; Python's slice keeps a shorter
      string whole. */
  function HashToken(h: Digest, s: string): (r: Option<string>)
    ensures r.Some? <==> h(s).Some?
    ensures r.Some? ==> r.value <= h(s).value
    ensures r.Some? ==> |r.value| == if |h(s).value| < TokenLength then |h(s).value| else TokenLength
  {
    match h(s)
    case None => None
    case Some(d) => Some(if |d| <= TokenLength then d else d[..TokenLength])
  }

  /** `generate_token(user)` at Unix time `now`. */
  function GenerateToken(h: Digest, u: UserFields, now: int): (r: Option<string>)
    ensures r.Some? <==> h(Canonical(u, Bucket(now))).Some?
    ensures r.Some? ==> r.value <= h(Canonical(u, Bucket(now))).value && |r.value| <= TokenLength
  {
    HashToken(h, Canonical(u, Bucket(now)))
  }

  /** The bucket `check_token` tries at its `k`-th iteration. */
  function CandidateBucket(now: int, k: int): int
  {
    now - now % HourSeconds - k * HourSeconds
  }

  /** The token `check_token` compares against at its `k`-th iteration. */
  function Expected(h: Digest, u: UserFields, now: int, k: int): Option<string>
  {
    HashToken(h, Canonical(u, CandidateBucket(now, k)))
  }

  /** When `check_token` answers True: some iteration `k` of the 24 recomputes
      the presented token, and no iteration before it raised (a raise ends the
      check with False). */
  ghost predicate Accepts(h: Digest, u: UserFields, token: string, now: int)
    ensures Accepts(h, u, token, now) ==> |token| <= TokenLength
    ensures Accepts(h, u, token, now) ==>
      exists k :: 0 <= k < WindowHours && Expected(h, u, now, k) == Some(token)
  {
    exists k :: 0 <= k < WindowHours && Expected(h, u, now, k) == Some(token) &&
      forall j :: 0 <= j < k ==> Expected(h, u, now, j).Some?
  }

  /** The truncated digest separates the string `s` from every candidate of
      the window at `now`: the weakest collision-freedom the rejection
      properties need (the 32-hex truncation cannot be injective on all
      strings). */
  ghost predicate NoCollision(h: Digest, u: UserFields, now: int, s: string)
  {
    forall k :: 0 <= k < WindowHours && Expected(h, u, now, k) == HashToken(h, s) ==>
      Canonical(u, CandidateBucket(now, k)) == s
  }

  // ---------------------------------------------------------------------
  // Shape of a token
  // ---------------------------------------------------------------------

  lemma TokenShape(h: Digest, u: UserFields, now: int)
    requires IsSha256Hex(h)
    requires GenerateToken(h, u, now).Some?
    ensures |GenerateToken(h, u, now).value| == TokenLength
    ensures GenerateToken(h, u, now).value <= h(Canonical(u, Bucket(now))).value
    ensures forall i :: 0 <= i < TokenLength ==> IsHexChar(GenerateToken(h, u, now).value[i])
  {
  }

  /** Tokens made at two times of the same hour are the same. */
  lemma SameHourSameToken(h: Digest, u: UserFields, t1: int, t2: int)
    requires t1 / HourSeconds == t2 / HourSeconds
    ensures GenerateToken(h, u, t1) == GenerateToken(h, u, t2)
  {
  }

  // ---------------------------------------------------------------------
  // The canonical string determines the bucket (and, for buckets from 1970
  // on, the password)
  // ---------------------------------------------------------------------

  lemma CanonicalBucketInjective(u: UserFields, b1: int, b2: int)
    requires Canonical(u, b1) == Canonical(u, b2)
    ensures b1 == b2
  {
    var p := u.email + "-" + IntToString(u.id) + "-" + u.password + "-";
    assert Canonical(u, b1) == p + IntToString(b1);
    assert Canonical(u, b2) == p + IntToString(b2);
    assert IntToString(b1) == Canonical(u, b1)[|p|..];
    assert IntToString(b2) == Canonical(u, b2)[|p|..];
    IntToStringInjective(b1, b2);
  }

  /** Splitting at the last '-' when what follows it holds no '-'. */
  lemma SplitAtLastDash(x: string, d1: string, y: string, d2: string)
    requires x + "-" + d1 == y + "-" + d2
    requires forall i :: 0 <= i < |d1| ==> d1[i] != '-'
    requires forall i :: 0 <= i < |d2| ==> d2[i] != '-'
    ensures x == y && d1 == d2
  {
    var s := x + "-" + d1;
    var m := if |d1| < |d2| then |d1| else |d2|;
    assert s[|s| - m - 1] == '-';
    assert |d1| == |d2|;
    assert x == s[..|x|];
    assert y == s[..|y|];
    assert d1 == s[|x| + 1..];
    assert d2 == s[|y| + 1..];
  }

  lemma CanonicalPasswordInjective(u: UserFields, v: UserFields, b1: int, b2: int)
    requires u.email == v.email && u.id == v.id
    requires b1 >= 0 && b2 >= 0
    requires Canonical(u, b1) == Canonical(v, b2)
    ensures u.password == v.password && b1 == b2
  {
    var p := u.email + "-" + IntToString(u.id) + "-";
    var d1, d2 := IntToString(b1), IntToString(b2);
    assert Canonical(u, b1) == (p + u.password) + "-" + d1;
    assert Canonical(v, b2) == (p + v.password) + "-" + d2;
    assert forall i :: 0 <= i < |d1| ==> d1[i] != '-';
    assert forall i :: 0 <= i < |d2| ==> d2[i] != '-';
    SplitAtLastDash(p + u.password, d1, p + v.password, d2);
    assert u.password == (p + u.password)[|p|..];
    assert v.password == (p + v.password)[|p|..];
    IntToStringInjective(b1, b2);
  }

  /** With a negative bucket the format is ambiguous: the password "p-" in the
      hour from 3600 and the password "p" in the hour from -3600 give the same
      string. Negative buckets are reached by the window of every check in the
      first 23 hours of 1970, not only by times before 1970. */
  lemma CanonicalAmbiguousBeforeEpoch()
    ensures Canonical(UserFields("a", 1, "p-"), 3600) == Canonical(UserFields("a", 1, "p"), -3600)
  {
  }

  // ---------------------------------------------------------------------
  // The acceptance window
  // ---------------------------------------------------------------------

  /** With a hash that never raises, acceptance is just "one of the 24
      candidates equals the token". */
  lemma AcceptsWithoutRaising(h: Digest, u: UserFields, token: string, now: int)
    requires NeverRaises(h)
    ensures Accepts(h, u, token, now) <==>
      exists k :: 0 <= k < WindowHours && Expected(h, u, now, k) == Some(token)
  {
  }

  /** A raise at iteration `j` before any match rejects the token. */
  lemma RaiseRejects(h: Digest, u: UserFields, token: string, now: int, j: int)
    requires 0 <= j < WindowHours
    requires Expected(h, u, now, j) == None
    requires forall i :: 0 <= i < j ==> Expected(h, u, now, i) != Some(token)
    ensures !Accepts(h, u, token, now)
  {
  }

  /** The candidate at iteration `k` is bucket `b` exactly when `b` lies `k`
      whole hours before the bucket of `now`. */
  lemma CandidateIs(now: int, b: int)
    requires b % HourSeconds == 0
    ensures b <= now < b + WindowHours * HourSeconds <==>
      0 <= now / HourSeconds - b / HourSeconds < WindowHours
    ensures CandidateBucket(now, now / HourSeconds - b / HourSeconds) == b
  {
  }

  lemma AcceptedInWindow(h: Digest, u: UserFields, g: int, now: int)
    requires NeverRaises(h)
    requires Bucket(g) <= now < Bucket(g) + WindowHours * HourSeconds
    ensures Accepts(h, u, GenerateToken(h, u, g).value, now)
  {
    var k := now / HourSeconds - Bucket(g) / HourSeconds;
    CandidateIs(now, Bucket(g));
    assert Expected(h, u, now, k) == GenerateToken(h, u, g);
    assert forall j :: 0 <= j < k ==> Expected(h, u, now, j).Some?;
  }

  lemma RejectedOutsideWindow(h: Digest, u: UserFields, g: int, now: int)
    requires GenerateToken(h, u, g).Some?
    requires now < Bucket(g) || now >= Bucket(g) + WindowHours * HourSeconds
    requires NoCollision(h, u, now, Canonical(u, Bucket(g)))
    ensures !Accepts(h, u, GenerateToken(h, u, g).value, now)
  {
    if Accepts(h, u, GenerateToken(h, u, g).value, now) {
      var k :| 0 <= k < WindowHours && Expected(h, u, now, k) == GenerateToken(h, u, g);
      CanonicalBucketInjective(u, CandidateBucket(now, k), Bucket(g));
      CandidateIs(now, Bucket(g));
      assert false;
    }
  }

  /** The exact validity window of a token made at `g`: the 24 hours from
      the start of `g`'s hour. */
  lemma TokenWindow(h: Digest, u: UserFields, g: int, now: int)
    requires NeverRaises(h)
    requires NoCollision(h, u, now, Canonical(u, Bucket(g)))
    ensures Accepts(h, u, GenerateToken(h, u, g).value, now) <==>
      Bucket(g) <= now < Bucket(g) + WindowHours * HourSeconds
  {
    if Bucket(g) <= now < Bucket(g) + WindowHours * HourSeconds {
      AcceptedInWindow(h, u, g, now);
    } else {
      RejectedOutsideWindow(h, u, g, now);
    }
  }

  /** The lifetime seen from the moment of issue: the token is accepted for
      (at least) the next 23 hours, never 24 hours or more later, and never
      before its issue hour (clock skew). */
  lemma TokenLifetime(h: Digest, u: UserFields, g: int, now: int)
    requires NeverRaises(h)
    requires NoCollision(h, u, now, Canonical(u, Bucket(g)))
    ensures g <= now <= g + (WindowHours - 1) * HourSeconds ==> Accepts(h, u, GenerateToken(h, u, g).value, now)
    ensures now >= g + WindowHours * HourSeconds ==> !Accepts(h, u, GenerateToken(h, u, g).value, now)
    ensures now < Bucket(g) ==> !Accepts(h, u, GenerateToken(h, u, g).value, now)
  {
    TokenWindow(h, u, g, now);
  }

  /** Changing the stored password hash revokes every token issued before:
      a token made for `u` is never accepted for `v`, the same user with a
      different password, for issue from 1970 on and checks from
      1970-01-01 23:00 UTC on (see `RevocationFailsEarly1970`). */
  lemma PasswordChangeRevokes(h: Digest, u: UserFields, v: UserFields, g: int, now: int)
    requires u.email == v.email && u.id == v.id && u.password != v.password
    requires g >= 0 && now >= (WindowHours - 1) * HourSeconds
    requires GenerateToken(h, u, g).Some?
    requires NoCollision(h, v, now, Canonical(u, Bucket(g)))
    ensures !Accepts(h, v, GenerateToken(h, u, g).value, now)
  {
    if Accepts(h, v, GenerateToken(h, u, g).value, now) {
      var k :| 0 <= k < WindowHours && Expected(h, v, now, k) == GenerateToken(h, u, g);
      assert now / HourSeconds >= WindowHours - 1;
      assert CandidateBucket(now, k) == (now / HourSeconds - k) * HourSeconds;
      CanonicalPasswordInjective(v, u, CandidateBucket(now, k), Bucket(g));
      assert false;
    }
  }

  /** The bound on `now` in `PasswordChangeRevokes` is needed: a token issued at
      3600 for the password "p-" is still accepted at 3600 after the password
      became "p", through the candidate bucket -3600 (iteration 2). The digest
      here is the identity, which raises nothing and has no collisions. */
  lemma RevocationFailsEarly1970()
    ensures Accepts(s => Some(s), UserFields("a", 1, "p"),
                    GenerateToken(s => Some(s), UserFields("a", 1, "p-"), 3600).value, 3600)
  {
    var h: Digest := s => Some(s);
    var u, v := UserFields("a", 1, "p-"), UserFields("a", 1, "p");
    CanonicalAmbiguousBeforeEpoch();
    assert CandidateBucket(3600, 2) == -3600;
    assert Expected(h, v, 3600, 2) == GenerateToken(h, u, 3600);
    assert forall j :: 0 <= j < 2 ==> Expected(h, v, 3600, j).Some?;
  }
}
