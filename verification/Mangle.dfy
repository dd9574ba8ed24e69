/** A row of `/ip firewall mangle`, as both rule audits read it. */
module Mangle {
  import opened PyText

  /** A DSCP field: a number, a text, or nothing. */
  datatype DscpField = NoDscp | IntDscp(n: int) | TextDscp(s: string)

  /** An empty text is a field that is absent or empty; `rest` stands for the
    * fields no audit reads.
    */
  datatype Rule = Rule(
    disabled: Flag, chain: string, action: string, comment: string,
    inInterface: string, outInterface: string,
    connectionMark: string, newConnectionMark: string, newPacketMark: string,
    newRoutingMark: string, newRoutingTable: string,
    dscp: DscpField, newDscp: DscpField, rest: string)

  predicate Enabled(r: Rule) { !Truth(r.disabled) }
}
