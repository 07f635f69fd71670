/**
 * The validating builder behind the `limits` field of the configuration:
 * a fold over the raw `(lower, upper, duration)` entries into a map from
 * byte range to retention duration, stopping at the first rejected entry.
 */
module Limits {
  import opened Results
  import opened Sizes
  import opened Durations

  /** One raw entry of the `limits` list, after its byte sizes have been decoded. */
  datatype RawEntry = RawEntry(lower: U64, upper: U64, duration: string)

  /** The human-readable duration parser (`humantime`), which is not part of this model. */
  type DurationParser = string -> Option<Duration>

  /** Why the builder rejected an entry. */
  datatype LimitError =
    | InvertedRange(lower: U64, upper: U64)
    | InvalidDuration(text: string)
    | DuplicateRange(range: SizeRange)

  /** The policy: byte range to retention duration. */
  type Policy = map<SizeRange, Duration>

  /** The map key an entry is stored under. */
  function KeyOf(e: RawEntry): SizeRange {
    SizeRange(e.lower, e.upper)
  }

  /** One turn of the loop: inversion check, duration parse, duplicate check, insert. */
  function Step(acc: Policy, e: RawEntry, parse: DurationParser): (r: Result<Policy, LimitError>)
    ensures r.Ok? <==> EntryOk(e, parse) && KeyOf(e) !in acc
    ensures r.Ok? ==> r.value.Keys == acc.Keys + {KeyOf(e)}
    ensures r.Ok? ==> parse(e.duration) == Some(r.value[KeyOf(e)])
    ensures r.Ok? ==> forall k :: k in acc ==> r.value[k] == acc[k]
    ensures r.Err? ==> Reports(r.error, acc.Keys, e, parse)
  {
    if e.lower > e.upper then
      Err(InvertedRange(e.lower, e.upper))
    else
      match parse(e.duration)
      case None => Err(InvalidDuration(e.duration))
      case Some(d) =>
        if KeyOf(e) in acc then Err(DuplicateRange(KeyOf(e)))
        else Ok(acc[KeyOf(e) := d])
  }

  /** The loop over `es`, starting from the partially built map `acc`. */
  function Fold(acc: Policy, es: seq<RawEntry>, parse: DurationParser): (r: Result<Policy, LimitError>)
    ensures r.Ok? ==> acc.Keys <= r.value.Keys
    ensures r.Ok? ==> forall k :: k in acc ==> r.value[k] == acc[k]
    decreases |es|
  {
    if es == [] then Ok(acc)
    else
      match Step(acc, es[0], parse)
      case Err(err) => Err(err)
      case Ok(acc') => Fold(acc', es[1..], parse)
  }

  /**
   * Builds the policy from the raw entries, in input order, from an empty map.
   * It succeeds exactly when the entries are acceptable, and the map then
   * holds one key per entry, each with its own parsed duration.
   */
  function Build(es: seq<RawEntry>, parse: DurationParser): (r: Result<Policy, LimitError>)
    ensures r.Ok? <==> Accepts(es, parse)
    ensures r.Ok? ==> r.value.Keys == KeySet(es)
    ensures r.Ok? ==> forall i :: 0 <= i < |es| ==>
      KeyOf(es[i]) in r.value && parse(es[i].duration) == Some(r.value[KeyOf(es[i])])
  {
    FoldOutcome(map[], es, parse);
    Fold(map[], es, parse)
  }

  // ---------------------------------------------------------------------------
  // Reference definitions: what an acceptable list of entries is.

  /** An entry acceptable on its own: bounds in order and a duration the parser understands. */
  predicate EntryOk(e: RawEntry, parse: DurationParser) {
    e.lower <= e.upper && parse(e.duration).Some?
  }

  /** No two entries share the exact pair `(lower, upper)`. */
  predicate DistinctKeys(es: seq<RawEntry>) {
    forall i, j :: 0 <= i < j < |es| ==> KeyOf(es[i]) != KeyOf(es[j])
  }

  /** Every entry acceptable and all keys distinct; overlap between ranges plays no part. */
  predicate Accepts(es: seq<RawEntry>, parse: DurationParser) {
    && (forall i :: 0 <= i < |es| ==> EntryOk(es[i], parse))
    && DistinctKeys(es)
  }

  /** The keys named by the entries. */
  function KeySet(es: seq<RawEntry>): set<SizeRange> {
    set e | e in es :: KeyOf(e)
  }

  /** Every key of the map has its bounds in order. */
  predicate Validated(m: Policy) {
    forall k :: k in m ==> WellFormed(k)
  }

  /**
   * `err` is what the builder reports for entry `e` when the keys `seen` are
   * already in the map: the earliest failing of the inversion check, the
   * duration parse and the duplicate check, in that order.
   */
  predicate Reports(err: LimitError, seen: set<SizeRange>, e: RawEntry, parse: DurationParser) {
    match err
    case InvertedRange(l, u) =>
      l == e.lower && u == e.upper && l > u
    case InvalidDuration(t) =>
      t == e.duration && e.lower <= e.upper && parse(t).None?
    case DuplicateRange(k) =>
      k == KeyOf(e) && e.lower <= e.upper && parse(e.duration).Some? && k in seen
  }

  // ---------------------------------------------------------------------------
  // Facts about the reference definitions.

  /** The keys of a non-empty list: the head's key and the tail's keys. */
  lemma KeySetCons(es: seq<RawEntry>)
    requires es != []
    ensures KeySet(es) == {KeyOf(es[0])} + KeySet(es[1..])
  {
  }

  /** A head whose key reappears in the tail breaks distinctness. */
  lemma HeadKeyRepeated(es: seq<RawEntry>)
    requires es != [] && KeyOf(es[0]) in KeySet(es[1..])
    ensures !DistinctKeys(es)
  {
  }

  /** Acceptability of a non-empty list, split into its head and its tail. */
  lemma AcceptsCons(es: seq<RawEntry>, parse: DurationParser)
    requires es != []
    ensures Accepts(es, parse) <==>
      EntryOk(es[0], parse) && Accepts(es[1..], parse) && KeyOf(es[0]) !in KeySet(es[1..])
  {
  }

  /** With distinct keys there are as many keys as entries. */
  lemma {:induction false} KeySetSize(es: seq<RawEntry>)
    requires DistinctKeys(es)
    ensures |KeySet(es)| == |es|
  {
    if es != [] {
      var rest := es[1..];
      KeySetCons(es);
      assert DistinctKeys(rest) by {
        forall i, j | 0 <= i < j < |rest|
          ensures KeyOf(rest[i]) != KeyOf(rest[j])
        {
          assert rest[i] == es[i + 1] && rest[j] == es[j + 1];
        }
      }
      if KeyOf(es[0]) in KeySet(rest) {
        HeadKeyRepeated(es);
      }
      KeySetSize(rest);
    }
  }

  // ---------------------------------------------------------------------------
  // What the fold computes.

  /**
   * The fold from `acc` succeeds exactly when the entries are acceptable and
   * name no key already in `acc`; the result then holds `acc` plus one key per
   * entry, each mapped to its entry's parsed duration.
   */
  lemma {:induction false} FoldOutcome(acc: Policy, es: seq<RawEntry>, parse: DurationParser)
    ensures Fold(acc, es, parse).Ok? <==> Accepts(es, parse) && KeySet(es) !! acc.Keys
    ensures Fold(acc, es, parse).Ok? ==> Fold(acc, es, parse).value.Keys == acc.Keys + KeySet(es)
    ensures Fold(acc, es, parse).Ok? ==>
      forall i :: 0 <= i < |es| ==>
        KeyOf(es[i]) in Fold(acc, es, parse).value &&
        parse(es[i].duration) == Some(Fold(acc, es, parse).value[KeyOf(es[i])])
    decreases |es|
  {
    if es != [] {
      var e, rest := es[0], es[1..];
      KeySetCons(es);
      AcceptsCons(es, parse);
      match Step(acc, e, parse)
      case Err(_) =>
        assert !EntryOk(e, parse) || KeyOf(e) in acc.Keys;
      case Ok(acc') =>
        FoldOutcome(acc', rest, parse);
        var r := Fold(acc, es, parse);
        assert r == Fold(acc', rest, parse);
        if r.Ok? {
          forall i | 0 <= i < |es|
            ensures KeyOf(es[i]) in r.value && parse(es[i].duration) == Some(r.value[KeyOf(es[i])])
          {
            if i > 0 {
              assert es[i] == rest[i - 1];
            }
          }
        }
    }
  }

  /** The build succeeds exactly when every entry is acceptable and all keys are distinct. */
  lemma BuildSucceedsIff(es: seq<RawEntry>, parse: DurationParser)
    ensures Build(es, parse).Ok? <==> Accepts(es, parse)
  {
  }

  /**
   * A successful build holds exactly the entries' keys, each mapped to the
   * duration parsed from its own entry, one key per entry, all with ordered bounds.
   */
  lemma BuildContents(es: seq<RawEntry>, parse: DurationParser)
    requires Build(es, parse).Ok?
    ensures Build(es, parse).value.Keys == KeySet(es)
    ensures forall i :: 0 <= i < |es| ==>
      KeyOf(es[i]) in Build(es, parse).value &&
      parse(es[i].duration) == Some(Build(es, parse).value[KeyOf(es[i])])
    ensures |Build(es, parse).value| == |es|
    ensures Validated(Build(es, parse).value)
  {
    FoldOutcome(map[], es, parse);
    KeySetSize(es);
    var m := Build(es, parse).value;
    forall k | k in m
      ensures WellFormed(k)
    {
      var e :| e in es && KeyOf(e) == k;
    }
  }

  /** One inverted entry anywhere makes the whole build fail; no partial map is returned. */
  lemma InvertedEntryRejectsAll(es: seq<RawEntry>, parse: DurationParser, i: nat)
    requires i < |es| && es[i].lower > es[i].upper
    ensures Build(es, parse).Err?
  {
  }

  /** A repeated `(lower, upper)` pair fails the build even when both durations are the same text. */
  lemma RepeatedKeyRejected(e: RawEntry, parse: DurationParser)
    requires EntryOk(e, parse)
    ensures Build([e, e], parse) == Err(DuplicateRange(KeyOf(e)))
  {
    var d := parse(e.duration).value;
    var once: Policy := map[KeyOf(e) := d];
    assert Step(map[], e, parse) == Ok(once);
    assert [e, e][1..] == [e];
    assert Fold(once, [e], parse) == Err(DuplicateRange(KeyOf(e)));
    assert Fold(map[], [e, e], parse) == Fold(once, [e], parse);
  }

  /** Distinct but overlapping ranges are accepted: only exact keys are compared. */
  lemma OverlapAccepted(first: string, second: string, parse: DurationParser)
    requires parse(first).Some? && parse(second).Some?
    ensures var es := [RawEntry(0, 100, first), RawEntry(50, 150, second)];
      && Build(es, parse).Ok?
      && |Build(es, parse).value| == 2
      && Matching(Build(es, parse).value.Keys, 75) == {SizeRange(0, 100), SizeRange(50, 150)}
  {
    var es := [RawEntry(0, 100, first), RawEntry(50, 150, second)];
    assert Accepts(es, parse);
    BuildSucceedsIff(es, parse);
    BuildContents(es, parse);
    assert KeySet(es) == {SizeRange(0, 100), SizeRange(50, 150)} by {
      assert KeyOf(es[0]) == SizeRange(0, 100) && KeyOf(es[1]) == SizeRange(50, 150);
      assert forall e :: e in es <==> e == es[0] || e == es[1];
    }
    var m := Build(es, parse).value;
    assert Matching(m.Keys, 75) == {SizeRange(0, 100), SizeRange(50, 150)} by {
      assert Contains(SizeRange(0, 100), 75) && Contains(SizeRange(50, 150), 75);
    }
  }

  // ---------------------------------------------------------------------------
  // Which error is reported.

  lemma {:induction false} FoldFirstError(acc: Policy, es: seq<RawEntry>, parse: DurationParser)
    requires Fold(acc, es, parse).Err?
    ensures exists i :: (0 <= i < |es|
      && Accepts(es[..i], parse) && KeySet(es[..i]) !! acc.Keys
      && Reports(Fold(acc, es, parse).error, acc.Keys + KeySet(es[..i]), es[i], parse))
    decreases |es|
  {
    var e, rest := es[0], es[1..];
    var err := Fold(acc, es, parse).error;
    match Step(acc, e, parse)
    case Err(_) =>
      assert es[..0] == [];
      assert KeySet(es[..0]) == {};
      assert Reports(err, acc.Keys + KeySet(es[..0]), es[0], parse);
    case Ok(acc') =>
      FoldFirstError(acc', rest, parse);
      var j :| 0 <= j < |rest|
        && Accepts(rest[..j], parse) && KeySet(rest[..j]) !! acc'.Keys
        && Reports(err, acc'.Keys + KeySet(rest[..j]), rest[j], parse);
      var prefix := es[..j + 1];
      assert prefix[0] == e && prefix[1..] == rest[..j];
      KeySetCons(prefix);
      AcceptsCons(prefix, parse);
      assert es[j + 1] == rest[j];
      assert acc.Keys + KeySet(prefix) == acc'.Keys + KeySet(rest[..j]);
      assert Accepts(prefix, parse) && KeySet(prefix) !! acc.Keys;
  }

  /**
   * Errors are first-failure in input order: a failed build reports the first
   * entry that does not fit after an acceptable prefix, and the check that
   * rejected it is the earliest of inversion, duration, duplicate.
   */
  lemma FirstErrorWins(es: seq<RawEntry>, parse: DurationParser)
    ensures Build(es, parse).Err? <==> !Accepts(es, parse)
    ensures Build(es, parse).Err? ==>
      exists i :: (0 <= i < |es|
        && Accepts(es[..i], parse)
        && Reports(Build(es, parse).error, KeySet(es[..i]), es[i], parse))
  {
    BuildSucceedsIff(es, parse);
    if Build(es, parse).Err? {
      var empty: Policy := map[];
      FoldFirstError(empty, es, parse);
      assert empty.Keys == {};
    }
  }

  /** An inverted entry is reported as inverted even when its duration text would not parse either. */
  lemma InversionCheckedBeforeDuration(e: RawEntry, parse: DurationParser)
    requires e.lower > e.upper && parse(e.duration).None?
    ensures Build([e], parse) == Err(InvertedRange(e.lower, e.upper))
  {
  }
}
