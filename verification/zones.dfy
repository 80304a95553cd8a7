/** Time-zone conversion of stored timestamps. Zone rules (IANA data, DST)
    are not modelled: a zone is a name, and the offset in force at an
    instant is an uninterpreted function supplied by the environment,
    together with the host's default zone. */
module Zones {
  import opened Entities

  type ZoneName = string

  /** The environment's zone database: seconds east of UTC for a zone at a
      UTC instant, and the zone of `TimeZone.getDefault()`. */
  datatype ZoneRules = ZoneRules(offsetAt: (ZoneName, int) -> int, systemDefault: ZoneName)

  /** The zone a viewer sees timestamps in: their own zone when set,
      otherwise the host's default zone. */
  function ViewerZone(viewer: User, rules: ZoneRules): (z: ZoneName)
    ensures viewer.timezone.None? ==> z == rules.systemDefault
    ensures viewer.timezone.Some? ==> z == viewer.timezone.value
  {
    match viewer.timezone
    case Some(name) => name
    case None => rules.systemDefault
  }

  /** Local wall-clock time in `zone` of the UTC instant `utc`
      (`atZone(UTC).withZoneSameInstant(zone).toLocalDateTime()`). */
  function ToLocal(utc: int, zone: ZoneName, rules: ZoneRules): (local: int)
    ensures local - utc == rules.offsetAt(zone, utc)
  {
    utc + rules.offsetAt(zone, utc)
  }

  /** The zone keeps one offset at every instant (no daylight saving). */
  ghost predicate FixedOffset(zone: ZoneName, rules: ZoneRules)
  {
    forall t1, t2 :: rules.offsetAt(zone, t1) == rules.offsetAt(zone, t2)
  }

  /** In a zone with a fixed offset, conversion to local time is a pure
      shift: it keeps the order of instants and the distance between them. */
  lemma FixedOffsetKeepsOrder(zone: ZoneName, rules: ZoneRules, t1: int, t2: int)
    requires FixedOffset(zone, rules)
    ensures ToLocal(t2, zone, rules) - ToLocal(t1, zone, rules) == t2 - t1
    ensures t1 <= t2 <==> ToLocal(t1, zone, rules) <= ToLocal(t2, zone, rules)
  {
    assert rules.offsetAt(zone, t1) == rules.offsetAt(zone, t2);
  }

  /** Offset of three hours east of UTC at every instant. */
  function PlusThree(zone: ZoneName, utc: int): int
  {
    3 * 3600
  }

  /** In a UTC+3 zone every instant is shown three hours later. Example:
      a task created at 2024-01-01T00:00:00Z (1704067200) is shown at
      03:00 of the same day. */
  lemma PlusThreeShift(t: int, zone: ZoneName, system: ZoneName)
    ensures ToLocal(t, zone, ZoneRules(PlusThree, system)) == t + 10800
    ensures ToLocal(1704067200, zone, ZoneRules(PlusThree, system)) == 1704067200 + 10800
  {
  }

  /** When the offset changes (a daylight-saving switch), a later instant
      can show an earlier local time: local order is not the UTC order. */
  lemma ShiftingOffsetCanReorder()
    ensures var rules := ZoneRules((z: ZoneName, t: int) => if t < 100 then 3600 else 0, "UTC");
            ToLocal(50, "X", rules) > ToLocal(150, "X", rules)
  {
  }
}
