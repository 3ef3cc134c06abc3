/** The statistics visitor of the PCAP feed-handler driver. Its packet step (find
    the payload offset, frame the rest of the packet) is the same as the replay
    driver's and is `ReplayDriver.HandlePacket`. */
module FeedStats {
  import opened Bytes

  /** `StatsVisitor`: six counters, each callback counting one delivered message. */
  class StatsVisitor {
    var addOrderCount: nat
    var orderExecutedCount: nat
    var systemEventCount: nat
    var unknownCount: nat
    var totalShares: nat
    var totalExecutions: nat

    constructor ()
      ensures addOrderCount == 0 && orderExecutedCount == 0 && systemEventCount == 0
      ensures unknownCount == 0 && totalShares == 0 && totalExecutions == 0
      ensures TotalMessages() == 0
    {
      addOrderCount, orderExecutedCount, systemEventCount := 0, 0, 0;
      unknownCount, totalShares, totalExecutions := 0, 0, 0;
    }

    /** `total_messages`: every delivered message falls in exactly one of the four
        per-kind counters, so none has been delivered exactly when all are zero. */
    function TotalMessages(): (n: nat)
      reads this
      ensures n == 0 <==> addOrderCount == 0 && orderExecutedCount == 0 && systemEventCount == 0 && unknownCount == 0
      ensures addOrderCount <= n && orderExecutedCount <= n && systemEventCount <= n && unknownCount <= n
    {
      addOrderCount + orderExecutedCount + systemEventCount + unknownCount
    }

    /** `on_add_order`, given the message's 32-bit share count. */
    method OnAddOrder(shares: nat)
      requires shares < 0x1_0000_0000
      modifies this
      ensures addOrderCount == old(addOrderCount) + 1
      ensures totalShares == old(totalShares) + shares
      ensures TotalMessages() == old(TotalMessages()) + 1
      ensures orderExecutedCount == old(orderExecutedCount) && systemEventCount == old(systemEventCount)
      ensures unknownCount == old(unknownCount) && totalExecutions == old(totalExecutions)
    {
      addOrderCount := addOrderCount + 1;
      totalShares := totalShares + shares;
    }

    /** `on_order_executed`, given the message's 32-bit executed share count. */
    method OnOrderExecuted(executedShares: nat)
      requires executedShares < 0x1_0000_0000
      modifies this
      ensures orderExecutedCount == old(orderExecutedCount) + 1
      ensures totalExecutions == old(totalExecutions) + executedShares
      ensures TotalMessages() == old(TotalMessages()) + 1
      ensures addOrderCount == old(addOrderCount) && systemEventCount == old(systemEventCount)
      ensures unknownCount == old(unknownCount) && totalShares == old(totalShares)
    {
      orderExecutedCount := orderExecutedCount + 1;
      totalExecutions := totalExecutions + executedShares;
    }

    /** `on_system_event`. */
    method OnSystemEvent()
      modifies this
      ensures systemEventCount == old(systemEventCount) + 1
      ensures TotalMessages() == old(TotalMessages()) + 1
      ensures addOrderCount == old(addOrderCount) && orderExecutedCount == old(orderExecutedCount)
      ensures unknownCount == old(unknownCount)
      ensures totalShares == old(totalShares) && totalExecutions == old(totalExecutions)
    {
      systemEventCount := systemEventCount + 1;
    }

    /** `on_unknown`: the type byte and the bytes are ignored. */
    method OnUnknown(msgType: byte, data: seq<byte>)
      modifies this
      ensures unknownCount == old(unknownCount) + 1
      ensures TotalMessages() == old(TotalMessages()) + 1
      ensures addOrderCount == old(addOrderCount) && orderExecutedCount == old(orderExecutedCount)
      ensures systemEventCount == old(systemEventCount)
      ensures totalShares == old(totalShares) && totalExecutions == old(totalExecutions)
    {
      unknownCount := unknownCount + 1;
    }
  }
}
