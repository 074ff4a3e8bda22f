/** How a failure to load the segmentation model is turned into one of three
    user-facing messages, by looking for substrings in the failure's message. */
module LoadErrors {

  /** The three categories a load failure falls into. */
  datatype LoadFailure = ModelNotFound | NetworkError | InitFailure

  /** String.prototype.includes: `sub` occurs in `s` at some position.
      The empty string occurs in every string. */
  function Contains(s: string, sub: string): bool
    decreases |s|
  {
    if |s| < |sub| then false
    else s[..|sub|] == sub || Contains(s[1..], sub)
  }

  /** `sub` occurs in `s` starting at position i. */
  ghost predicate OccursAt(s: string, sub: string, i: int)
  {
    0 <= i && i + |sub| <= |s| && s[i..i + |sub|] == sub
  }

  /** Contains agrees with the positional definition of an occurrence. */
  lemma {:induction false} ContainsAt(s: string, sub: string)
    ensures Contains(s, sub) <==> exists i :: OccursAt(s, sub, i)
    decreases |s|
  {
    if |s| < |sub| {
    } else if s[..|sub|] == sub {
      assert OccursAt(s, sub, 0);
    } else {
      ContainsAt(s[1..], sub);
      forall i | 0 < i
        ensures OccursAt(s, sub, i) == OccursAt(s[1..], sub, i - 1)
      {
        ShiftOccurrence(s, sub, i);
      }
      assert !OccursAt(s, sub, 0);
      if Contains(s[1..], sub) {
        var i :| OccursAt(s[1..], sub, i);
        assert OccursAt(s, sub, i + 1);
      }
    }
  }

  /** An occurrence at i > 0 in `s` is an occurrence at i - 1 in the tail of `s`. */
  lemma ShiftOccurrence(s: string, sub: string, i: int)
    requires 0 < i && |s| > 0
    ensures OccursAt(s, sub, i) == OccursAt(s[1..], sub, i - 1)
  {
    if i + |sub| <= |s| {
      var a := s[i..i + |sub|];
      var b := s[1..][i - 1..i - 1 + |sub|];
      assert forall k :: 0 <= k < |sub| ==> a[k] == b[k];
      assert a == b;
    }
  }

  /** A message that has `sub` at position i contains it. */
  lemma ContainsWitness(s: string, sub: string, i: nat)
    requires i + |sub| <= |s| && s[i..i + |sub|] == sub
    ensures Contains(s, sub)
  {
    ContainsAt(s, sub);
    assert OccursAt(s, sub, i);
  }

  /** A string in which the first character of `sub` never appears does not contain `sub`. */
  lemma {:induction false} FirstCharAbsent(s: string, sub: string)
    requires |sub| > 0 && forall k :: 0 <= k < |s| ==> s[k] != sub[0]
    ensures !Contains(s, sub)
    decreases |s|
  {
    if |s| >= |sub| {
      assert s[..|sub|][0] == s[0];
      FirstCharAbsent(s[1..], sub);
    }
  }

  ghost predicate SignalsNotFound(message: string)
  {
    Contains(message, "404") || Contains(message, "Not Found")
  }

  ghost predicate SignalsNetwork(message: string)
  {
    Contains(message, "network") || Contains(message, "fetch")
  }

  /** The not-found test comes first, so a message that carries both kinds of
      signal is a missing model; the tests are case-sensitive. */
  function Classify(message: string): (k: LoadFailure)
    ensures k == ModelNotFound <==> SignalsNotFound(message)
    ensures k == NetworkError <==> !SignalsNotFound(message) && SignalsNetwork(message)
    ensures k == InitFailure <==> !SignalsNotFound(message) && !SignalsNetwork(message)
  {
    if Contains(message, "404") || Contains(message, "Not Found") then ModelNotFound
    else if Contains(message, "network") || Contains(message, "fetch") then NetworkError
    else InitFailure
  }

  /** The message the load routine throws for each category. */
  function Message(k: LoadFailure): string
  {
    match k
    case ModelNotFound =>
      "AI model not found. Please download u2netp.onnx model and place it in public/models/ folder."
    case NetworkError =>
      "Network error loading AI model. Please check your internet connection and try again."
    case InitFailure =>
      "Failed to initialize AI model. Your browser may not support this feature."
  }

  /** The message thrown for a failure whose own message is `message`. */
  function LoadFailureMessage(message: string): (m: string)
    ensures SignalsNotFound(message) ==> m == Message(ModelNotFound)
    ensures !SignalsNotFound(message) && SignalsNetwork(message) ==> m == Message(NetworkError)
    ensures !SignalsNotFound(message) && !SignalsNetwork(message) ==> m == Message(InitFailure)
  {
    Message(Classify(message))
  }

  /** A failure reported as "... 404 ..." during a fetch is a missing model, not a network error. */
  lemma NotFoundTakesPrecedence(prefix: string, suffix: string)
    ensures Classify(prefix + "404" + suffix) == ModelNotFound
    ensures Classify("Failed to fetch " + prefix + "404" + suffix) == ModelNotFound
  {
    var s := prefix + "404" + suffix;
    assert s[|prefix|..|prefix| + 3] == "404";
    ContainsWitness(s, "404", |prefix|);
    var t := "Failed to fetch " + prefix + "404" + suffix;
    assert t[16 + |prefix|..16 + |prefix| + 3] == "404";
    ContainsWitness(t, "404", 16 + |prefix|);
  }

  /** Chrome's "Failed to fetch" is a network error. */
  lemma FetchFailureIsNetwork()
    ensures Classify("Failed to fetch") == NetworkError
  {
    var s := "Failed to fetch";
    assert s == ['F', 'a', 'i', 'l', 'e', 'd', ' ', 't', 'o', ' ', 'f', 'e', 't', 'c', 'h'];
    assert s[10..15] == "fetch";
    ContainsWitness(s, "fetch", 10);
    assert forall k :: 0 <= k < |s| ==> s[k] != '4' && s[k] != 'N';
    FirstCharAbsent(s, "404");
    FirstCharAbsent(s, "Not Found");
  }
}
