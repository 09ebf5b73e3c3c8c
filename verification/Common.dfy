/** Result types, the byte type and insertion-ordered sets, shared by every module. */
module Common {
  datatype Option<+T> = None | Some(value: T)

  /** A value, or the error a source function would throw. */
  datatype Result<+T, +E> = Ok(value: T) | Err(error: E) {
    predicate IsFailure() {
      Err?
    }

    function PropagateFailure<U>(): Result<U, E>
      requires Err?
    {
      Err(error)
    }

    function Extract(): T
      requires Ok?
    {
      value
    }
  }

  type byte = x: nat | x < 256
  type Bytes = seq<byte>

  /** The codes of a rejected request. */
  datatype Code =
    | AttestationInvalid | ChallengeExpired | ChallengeReplayed
    | AppIntegrity | DeviceIntegrity | NoHardwareAttestation
    | NoRemoteProvisioning | SecurityPatchOutdated

  /** A decoded request body. */
  datatype AttestRequest = AttestRequest(challenge: string, chain: seq<string>, pop: string)

  /** Insertion into a JavaScript Set, or a list kept free of duplicates: order of first insertion. */
  function Add<T(==)>(out: seq<T>, x: T): seq<T> {
    if x in out then out else out + [x]
  }

  function Distinct<T(==, !new)>(s: seq<T>): (r: seq<T>)
    ensures forall x :: x in r <==> x in s
  {
    if s == [] then [] else Add(Distinct(s[..|s| - 1]), s[|s| - 1])
  }

  ghost predicate NoDuplicates<T(!new)>(s: seq<T>) {
    forall i, j :: 0 <= i < j < |s| ==> s[i] != s[j]
  }

  lemma AddKeepsNoDuplicates<T(!new)>(out: seq<T>, x: T)
    requires NoDuplicates(out)
    ensures NoDuplicates(Add(out, x))
  {
  }

  lemma NoDuplicatesBefore<T(!new)>(s: seq<T>)
    requires NoDuplicates(s) && s != []
    ensures var before := s[..|s| - 1]; NoDuplicates(before) && s[|s| - 1] !in before
  {
    var before := s[..|s| - 1];
    forall i | 0 <= i < |before| ensures before[i] != s[|s| - 1] {
      assert s[i] != s[|s| - 1];
    }
    forall i, j | 0 <= i < j < |before| ensures before[i] != before[j] {
      assert s[i] != s[j];
    }
  }

  lemma {:induction false} DistinctHasNoDuplicates<T(!new)>(s: seq<T>)
    ensures NoDuplicates(Distinct(s))
  {
    hide NoDuplicates, Add;
    if s == [] {
      NothingDuplicated<T>();
    } else {
      DistinctHasNoDuplicates(s[..|s| - 1]);
      AddKeepsNoDuplicates(Distinct(s[..|s| - 1]), s[|s| - 1]);
    }
  }

  lemma {:induction false} DistinctOfNoDuplicates<T(!new)>(s: seq<T>)
    requires NoDuplicates(s)
    ensures Distinct(s) == s
  {
    hide NoDuplicates, Distinct;
    DistinctStep(s);
    if s != [] {
      var before, last := s[..|s| - 1], s[|s| - 1];
      NoDuplicatesBefore(s);
      DistinctOfNoDuplicates(before);
      assert s == before + [last];
    }
  }

  lemma DistinctStep<T(!new)>(s: seq<T>)
    ensures Distinct(s) == if s == [] then [] else Add(Distinct(s[..|s| - 1]), s[|s| - 1])
  {
    hide Add;
  }

  lemma NothingDuplicated<T(!new)>()
    ensures NoDuplicates<T>([])
  {
  }
}
