/** The handle that a notification or indication carries. */
module NotificationHandles {
  import opened AttributeHandles
  import opened GattServer
  import opened NotificationData

  /** The look-up of an index gives the handle of a characteristic's value: the one fixed for it, or the one behind its
      declaration's. */
  ghost predicate HasValueHandle(services: seq<Service>, s: nat, k: nat, c: Characteristic, index: nat)
    requires Accepted(1, services) && ValueAt(services, s, k, c, index)
  {
    && HandleByIndex(services, index) == Value(OwnStart(services, s, k), c)
    && HandleByIndex(services, index - 1) == Declaration(OwnStart(services, s, k), c)
  }

  /** A characteristic queued by its UUID is sent with the handle of its own value, if its service includes no other, and
      no service without characteristics stands in front of a characteristic. */
  lemma UuidFindsValueHandle(services: seq<Service>, c: Characteristic)
    requires Accepted(1, services) && NoIncludes(services) && EmptyServicesLast(services) && c.attributes >= 2
    requires FindType(SortedByPriority(services), c) < |SortedByPriority(services)|
    ensures var index := ByUuid(services, c).valueIndex;
            exists s, k :: ValueAt(services, s, k, c, index) && HasValueHandle(services, s, k, c, index)
  {
    var index := ByUuid(services, c).valueIndex;
    UuidFindsValue(services, c);
    var s, k :| ValueAt(services, s, k, c, index);
    HandleInTable(services, s, k, 0);
    HandleInTable(services, s, k, 1);
    assert HasValueHandle(services, s, k, c, index);
  }
}
