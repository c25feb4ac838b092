/** Small shared vocabulary of the hotel-booking model: optional and
    failure-carrying results, the kinds of error the system raises, and the
    order-preserving filter behind the hotel search and the per-user and
    per-hotel reservation lists. */
module Common {

  datatype Option<+T> = None | Some(value: T)

  /** A value, or the kind of error the operation raised instead. */
  datatype Result<+T> = Success(value: T) | Failure(error: Error)

  /** The outcome of an operation that returns nothing but may raise. */
  datatype Outcome = Pass | Fail(error: Error)

  /** Kinds of error. The system raises a plain value error with a
      human-readable message for each of these; only the kind is kept. */
  datatype Error =
    | InvalidRange        // start date not before end date
    | Unavailable         // the requested dates overlap an existing booking
    | DuplicateId         // a registry already holds the key
    | Mismatch            // hotel or room does not belong to the reservation
    | RatingOutOfRange    // a star rating outside 1..5
    | MissingField        // a required user field is empty
    | NameHasDigit        // a first or last name contains a digit
    | NameTooLong         // a first name longer than 100 characters
    | BadEmail            // the email does not have the accepted shape
    | BadPhone            // the phone number does not have the accepted shape
    | WeakPassword        // too short, or lacking a letter or a digit
    | WrongPassword       // the old password does not verify
    | EmailTaken          // a user with that email is already registered

  /** Every element of `s` occurs once. */
  predicate NoDups<T(==)>(s: seq<T>) {
    forall i, j :: 0 <= i < j < |s| ==> s[i] != s[j]
  }

  /** Position of the first occurrence of `x` in `s`, or |s| when absent. */
  function IndexOf<T(==)>(s: seq<T>, x: T): (k: nat)
    ensures k <= |s|
    ensures k < |s| ==> s[k] == x
  {
    if s == [] then 0
    else if s[0] == x then 0
    else 1 + IndexOf(s[1..], x)
  }

  /** No occurrence of `x` comes before the one `IndexOf` finds. */
  lemma {:induction false} IndexOfIsFirst<T>(s: seq<T>, x: T)
    ensures forall i :: 0 <= i < IndexOf(s, x) ==> s[i] != x
  {
    if s != [] && s[0] != x {
      IndexOfIsFirst(s[1..], x);
    }
  }

  /** Position of the last occurrence of `x` in `s`, or -1 when absent. */
  function LastIndexOf<T(==)>(s: seq<T>, x: T): (k: int)
    ensures -1 <= k < |s|
    ensures k >= 0 ==> s[k] == x
  {
    if s == [] then -1
    else if s[|s| - 1] == x then |s| - 1
    else LastIndexOf(s[..|s| - 1], x)
  }

  /** No occurrence of `x` comes after the one `LastIndexOf` finds. */
  lemma {:induction false} LastIndexOfIsLast<T>(s: seq<T>, x: T)
    ensures forall i :: LastIndexOf(s, x) < i < |s| ==> s[i] != x
  {
    if s != [] && s[|s| - 1] != x {
      LastIndexOfIsLast(s[..|s| - 1], x);
    }
  }

  /** `r` is `s` with some elements left out, the rest kept in order. */
  predicate Subseq<T(==)>(r: seq<T>, s: seq<T>)
    decreases |s|
  {
    if r == [] then true
    else if s == [] then false
    else
      Subseq(r, s[..|s| - 1])
      || (r[|r| - 1] == s[|s| - 1] && Subseq(r[..|r| - 1], s[..|s| - 1]))
  }

  /** The elements of `s` that satisfy `p`, in their original order. */
  function Filter<T(==)>(s: seq<T>, p: T -> bool): (r: seq<T>)
    ensures |r| <= |s|
    ensures forall i :: 0 <= i < |r| ==> r[i] in s && p(r[i])
    ensures forall i :: 0 <= i < |s| && p(s[i]) ==> s[i] in r
  {
    if s == [] then []
    else
      var rest := Filter(s[..|s| - 1], p);
      var last := s[|s| - 1];
      assert s == s[..|s| - 1] + [last];
      if p(last) then rest + [last] else rest
  }

  /** Filtering one element more appends it when it passes. */
  lemma FilterStep<T>(s: seq<T>, i: int, p: T -> bool)
    requires 0 <= i < |s|
    ensures Filter(s[..i + 1], p) == Filter(s[..i], p) + (if p(s[i]) then [s[i]] else [])
  {
    assert s[..i + 1][..i] == s[..i];
  }

  /** A filter keeps the order of its input. */
  lemma {:induction false} FilterInOrder<T>(s: seq<T>, p: T -> bool)
    ensures Subseq(Filter(s, p), s)
  {
    if s != [] {
      FilterInOrder(s[..|s| - 1], p);
    }
  }

  /** A filter that every element passes returns its input unchanged. */
  lemma {:induction false} FilterAll<T>(s: seq<T>, p: T -> bool)
    requires forall i :: 0 <= i < |s| ==> p(s[i])
    ensures Filter(s, p) == s
  {
    if s != [] {
      FilterAll(s[..|s| - 1], p);
      assert s == s[..|s| - 1] + [s[|s| - 1]];
    }
  }

  /** The values of `m` at the keys of `keys`, in the order of `keys`. */
  function ValuesAt<K, V>(keys: seq<K>, m: map<K, V>): (r: seq<V>)
    requires forall k :: k in keys ==> k in m
    ensures |r| == |keys|
    ensures forall i :: 0 <= i < |keys| ==> r[i] == m[keys[i]]
  {
    if keys == [] then [] else ValuesAt(keys[..|keys| - 1], m) + [m[keys[|keys| - 1]]]
  }
}
