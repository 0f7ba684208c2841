/** The immutable protocol configuration that the message code consults (ProtocolConfig.h). */
module ProtocolConfig {
  import opened Octets
  import opened Outcomes
  import opened DataItems

  /** A configured data item; `percentage` is its unit, and `status` says that it is the Status data item. */
  datatype ItemInfo = ItemInfo(valueType: ValueType, metric: bool, percentage: bool, status: bool)

  datatype Config = Config(
    signalIdSize: nat,
    signalLengthSize: nat,
    itemIdSize: nat,
    itemLengthSize: nat,
    extIdSize: nat,
    prefix: seq<Octet>,
    signals: map<string, U32>,
    messages: map<string, U32>,
    items: map<U32, ItemInfo>,
    statusCodes: set<nat>)
  {
    /** Field sizes for which the fit check of `serialize` is defined; names and ids are bimaps. */
    ghost predicate Valid() {
      && 1 <= signalIdSize <= 4 && 1 <= itemIdSize <= 4 && 1 <= extIdSize <= 4
      && 1 <= signalLengthSize <= 3 && 1 <= itemLengthSize <= 3
      && (forall m, n :: m in signals && n in signals && signals[m] == signals[n] ==> m == n)
      && (forall m, n :: m in messages && n in messages && messages[m] == messages[n] ==> m == n)
    }

    function Table(isSignal: bool): map<string, U32> {
      if isSignal then signals else messages
    }

    /** `get_signal_id`: a name is looked up as a signal first, then as a message. */
    function FindName(name: string): Option<(U32, bool)> {
      if name in signals then Some((signals[name], true))
      else if name in messages then Some((messages[name], false))
      else None
    }

    function HeaderSize(): nat {
      signalIdSize + signalLengthSize
    }

    predicate IsIpAddr(id: U32)
      requires id in items
    {
      items[id].valueType in {TU8Ipv4, TU8Ipv6, TIpv4U8, TIpv6U8, TU8Ipv4U16, TU8Ipv6U16, TU8Ipv4U8, TU8Ipv6U8}
    }
  }
}
