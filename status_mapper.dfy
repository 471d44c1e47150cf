/**
 * Classification of single responses and the map from serial number to status
 * that the checker builds from them.
 */
module StatusMapper {
  import opened Wrappers
  import opened OcspTypes

  /** CRLReason unspecified(0) (RFC 5280 section 5.3.1): the reason of a revocation that gives none. */
  const UnspecifiedReason: int := 0

  /**
   * Total classification of one single response: no status object is good, a
   * revoked status is revoked with its time and its reason (unspecified when it
   * has none), anything else is unknown.
   */
  function Classify(entry: SingleResp): (r: StatusInfo)
    ensures r.Good? <==> entry.certStatus.NoStatus?
    ensures r.Revoked? <==> entry.certStatus.RevokedStatus?
    ensures r.Unknown? <==> entry.certStatus.UnknownStatus?
    ensures r.Revoked? ==> r.revocationTime == entry.certStatus.revocationTime
    ensures r.Revoked? && entry.certStatus.revocationReason.Some? ==> r.reason == entry.certStatus.revocationReason.value
    ensures r.Revoked? && entry.certStatus.revocationReason.None? ==> r.reason == UnspecifiedReason
  {
    match entry.certStatus
    case NoStatus => Good
    case RevokedStatus(time, reason) => Revoked(time, reason.GetOr(UnspecifiedReason))
    case UnknownStatus => Unknown
  }

  /** The validity window (thisUpdate, nextUpdate) plays no part in the classification. */
  lemma ClassifyIgnoresValidityWindow(entry: SingleResp, thisUpdate: Instant, nextUpdate: Option<Instant>)
    ensures Classify(entry.(thisUpdate := thisUpdate, nextUpdate := nextUpdate)) == Classify(entry)
  {
  }

  /** The serial numbers of the given single responses. */
  function Serials(entries: seq<SingleResp>): set<Serial> {
    set i | 0 <= i < |entries| :: entries[i].certId.serialNumber
  }

  /**
   * The map that results from putting, in order, every entry's classification
   * under its serial number into an initially empty map.
   */
  function StatusMap(entries: seq<SingleResp>): (m: map<Serial, StatusInfo>)
    ensures m.Keys == Serials(entries)
    ensures |m| <= |entries|
  {
    if entries == [] then map[]
    else
      var prefix, last := entries[..|entries| - 1], entries[|entries| - 1];
      var m := StatusMap(prefix)[last.certId.serialNumber := Classify(last)];
      assert Serials(entries) == Serials(prefix) + {last.certId.serialNumber} by {
        forall k | k in Serials(entries) ensures k in Serials(prefix) + {last.certId.serialNumber} {
          var i :| 0 <= i < |entries| && entries[i].certId.serialNumber == k;
          if i < |prefix| { assert prefix[i] == entries[i]; }
        }
        forall k | k in Serials(prefix) ensures k in Serials(entries) {
          var i :| 0 <= i < |prefix| && prefix[i].certId.serialNumber == k;
          assert entries[i] == prefix[i];
        }
      }
      m
  }

  /**
   * Last write wins: a serial number maps to the classification of the last entry
   * that carries it.
   */
  lemma {:induction false} StatusMapLastWriteWins(entries: seq<SingleResp>, i: nat)
    requires i < |entries|
    requires forall j :: i < j < |entries| ==> entries[j].certId.serialNumber != entries[i].certId.serialNumber
    ensures entries[i].certId.serialNumber in StatusMap(entries)
    ensures StatusMap(entries)[entries[i].certId.serialNumber] == Classify(entries[i])
  {
    if i < |entries| - 1 {
      var prefix := entries[..|entries| - 1];
      assert prefix[i] == entries[i];
      StatusMapLastWriteWins(prefix, i);
    }
  }

  /** Every serial number present maps to the classification of some entry with that serial. */
  lemma {:induction false} StatusMapValuesComeFromEntries(entries: seq<SingleResp>, k: Serial)
    requires k in StatusMap(entries)
    ensures exists i :: 0 <= i < |entries| && entries[i].certId.serialNumber == k
                        && StatusMap(entries)[k] == Classify(entries[i])
  {
    var prefix, last := entries[..|entries| - 1], entries[|entries| - 1];
    if last.certId.serialNumber != k {
      StatusMapValuesComeFromEntries(prefix, k);
      var i :| 0 <= i < |prefix| && prefix[i].certId.serialNumber == k && StatusMap(prefix)[k] == Classify(prefix[i]);
      assert entries[i] == prefix[i];
    } else {
      assert entries[|entries| - 1] == last;
    }
  }

  /** With pairwise distinct serial numbers there is exactly one map entry per single response. */
  lemma {:induction false} StatusMapSizeDistinct(entries: seq<SingleResp>)
    requires forall i, j :: 0 <= i < j < |entries| ==> entries[i].certId.serialNumber != entries[j].certId.serialNumber
    ensures |StatusMap(entries)| == |entries|
  {
    if entries != [] {
      var prefix, last := entries[..|entries| - 1], entries[|entries| - 1];
      StatusMapSizeDistinct(prefix);
      forall i | 0 <= i < |prefix|
        ensures prefix[i].certId.serialNumber != last.certId.serialNumber
      {
        assert prefix[i] == entries[i];
      }
      assert last.certId.serialNumber !in Serials(prefix);
    }
  }

  /** Fills a fresh map, entry by entry, putting each classification under its serial number. */
  method BuildStatuses(entries: seq<SingleResp>) returns (statuses: map<Serial, StatusInfo>)
    ensures statuses == StatusMap(entries)
    ensures statuses.Keys == Serials(entries)
  {
    statuses := map[];
    for i := 0 to |entries|
      invariant statuses == StatusMap(entries[..i])
    {
      var entry := entries[i];
      assert entries[..i + 1][..i] == entries[..i];
      statuses := statuses[entry.certId.serialNumber := Classify(entry)];
    }
    assert entries[..|entries|] == entries;
  }
}
