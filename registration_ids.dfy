/** Registration-id allocation (controllers/userController.js): `generateRegistrationId`,
    which reads the id of the most recently created user and hands out the next number
    (never below 1001), and the starting point of the block `bulkRegisterUsers` hands out
    (no floor). Ids have the form "NFLO26-<number>". */
module RegistrationIds {
  import opened Wrappers
  import opened Text

  const Prefix: string := "NFLO26-"

  /** The smallest number `generateRegistrationId` hands out. */
  const FirstNumber: int := 1001

  /** `parseInt(id.split("-")[1], 10)`: the number after the first '-', or `None` (NaN). A
      missing second field reads as the text "undefined", which does not parse. */
  function SuffixNumber(id: string): Option<int> {
    ParseInt(JsText(SecondField(id, '-')))
  }

  /** The id the allocators build for a number. */
  function IdFor(n: nat): string {
    Prefix + NatToDecimal(n)
  }

  /** The number after the prefix reads back from the id built for it. */
  lemma SuffixOfIdFor(n: nat)
    ensures SuffixNumber(IdFor(n)) == Some(n)
  {
    var d := NatToDecimal(n);
    assert IdFor(n) == "NFLO26" + ['-'] + d;
    SecondFieldOfJoin("NFLO26", '-', d);
    ParseIntOfDecimal(n, []);
    assert d + [] == d;
  }

  /** Ids built for different numbers differ. */
  lemma IdForInjective(m: nat, n: nat)
    requires m != n
    ensures IdFor(m) != IdFor(n)
  {
    SuffixOfIdFor(m);
    SuffixOfIdFor(n);
  }

  /** The number after the first '-' is never negative: the field cannot hold a minus
      sign, since it ends at the next '-'. */
  lemma SuffixNumberNonNegative(id: string)
    requires SuffixNumber(id).Some?
    ensures SuffixNumber(id).value >= 0
  {
    var second := SecondField(id, '-');
    if second.Some? {
      ParseIntWithoutMinus(second.value);
    }
  }

  /** The literal first id is the id built for 1001. */
  lemma FirstId()
    ensures IdFor(FirstNumber) == "NFLO26-1001"
  {
    assert NatToDecimal(1001) == NatToDecimal(100) + ['1'];
    assert NatToDecimal(100) == NatToDecimal(10) + ['0'];
    assert NatToDecimal(10) == NatToDecimal(1) + ['0'];
  }

  /** The number the single allocator hands out after `lastRegistrationId`: the parsed
      suffix plus one, but at least 1001; 1001 when there is no id or it does not parse. */
  function NextIdNumber(lastRegistrationId: Option<string>): (n: nat)
    ensures n >= FirstNumber
  {
    if lastRegistrationId.None? || lastRegistrationId.value == "" then FirstNumber
    else
      match SuffixNumber(lastRegistrationId.value)
      case None => FirstNumber
      case Some(p) => if p + 1 < FirstNumber then FirstNumber else p + 1
  }

  /** The allocated number exceeds the last one and is the least such number that is at
      least 1001; without a parsable last id it is 1001. */
  lemma NextIdNumberCases(last: Option<string>)
    ensures (last.Some? && last.value != "" && SuffixNumber(last.value).Some?) ==>
      && NextIdNumber(last) > SuffixNumber(last.value).value
      && (NextIdNumber(last) == FirstNumber || NextIdNumber(last) == SuffixNumber(last.value).value + 1)
    ensures (last.None? || last.value == "" || SuffixNumber(last.value).None?) ==>
      NextIdNumber(last) == FirstNumber
  {
  }

  /** `generateRegistrationId`, given the registration id of the most recently created
      user (`None` when there is no user or it has no id). */
  function GenerateRegistrationId(lastRegistrationId: Option<string>): (id: string)
    ensures id == IdFor(NextIdNumber(lastRegistrationId))
  {
    if lastRegistrationId.None? || lastRegistrationId.value == "" then
      FirstId();
      Prefix + "1001"
    else
      var lastIdNum := SuffixNumber(lastRegistrationId.value);
      var candidate := if lastIdNum.None? then 1001 else lastIdNum.value + 1;
      var newIdNum := if candidate < 1001 then 1001 else candidate;
      assert newIdNum == NextIdNumber(lastRegistrationId);
      Prefix + NatToDecimal(newIdNum)
  }

  /** Without a last id the allocator hands out "NFLO26-1001"; in every case the number
      reads back from the id it hands out. */
  lemma GeneratedId(last: Option<string>)
    ensures last.None? || last == Some("") ==> GenerateRegistrationId(last) == "NFLO26-1001"
    ensures SuffixNumber(GenerateRegistrationId(last)) == Some(NextIdNumber(last))
  {
    FirstId();
    SuffixOfIdFor(NextIdNumber(last));
  }

  /** Allocating from the id just allocated yields the next number. */
  lemma NextAllocationIncrements(last: Option<string>)
    ensures NextIdNumber(Some(GenerateRegistrationId(last))) == NextIdNumber(last) + 1
  {
    var id := GenerateRegistrationId(last);
    GeneratedId(last);
    assert id != "" by {
      assert |IdFor(NextIdNumber(last))| > 0;
    }
  }

  /** Two registrations made one after another, the second reading the id the first
      stored, receive different ids. */
  lemma ConsecutiveIdsDiffer(last: Option<string>)
    ensures GenerateRegistrationId(Some(GenerateRegistrationId(last))) != GenerateRegistrationId(last)
  {
    NextAllocationIncrements(last);
    IdForInjective(NextIdNumber(Some(GenerateRegistrationId(last))), NextIdNumber(last));
  }

  /** The number `bulkRegisterUsers` starts counting from (`lastIdNum`): the parsed suffix
      of the most recent id, or 1000 when there is none or it does not parse. The first
      imported row gets this number plus one; no floor of 1001 is applied. */
  function BulkStartNumber(lastRegistrationId: Option<string>): (n: nat)
    ensures lastRegistrationId.None? || lastRegistrationId == Some("") ==> n == 1000
    ensures lastRegistrationId.Some? && lastRegistrationId.value != "" ==>
      var last := SuffixNumber(lastRegistrationId.value);
      && (last.None? ==> n == 1000)
      && (last.Some? ==> n == last.value)
  {
    if lastRegistrationId.Some? && lastRegistrationId.value != "" then
      var parsed := SuffixNumber(lastRegistrationId.value);
      if parsed.Some? then
        SuffixNumberNonNegative(lastRegistrationId.value);
        parsed.value
      else 1000
    else 1000
  }

  /** While the last number is below 1000 the two allocators part: a bulk block starts
      right after it, under the single allocator's floor, where a single registration
      gets 1001 (after "NFLO26-5", 6 against 1001). */
  lemma BulkBelowFloor(last: Option<string>)
    requires BulkStartNumber(last) < 1000
    ensures BulkStartNumber(last) + 1 < FirstNumber
    ensures NextIdNumber(last) == FirstNumber
  {
  }

  /** When the last id's number is at least 1000, a bulk block starts exactly where a
      single registration would have. */
  lemma BulkMatchesSingleAboveFloor(last: Option<string>)
    requires BulkStartNumber(last) >= 1000
    ensures NextIdNumber(last) == BulkStartNumber(last) + 1
  {
  }
}
