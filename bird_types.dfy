/** The records the status parsers produce (src/types.ts). Fields the parser
    leaves `undefined` are `Option`s; fields it always fills are plain values,
    even where the TypeScript interface calls them optional, because the
    parser fails rather than leave them out. */
module BirdTypes {
  import opened Wrappers
  import opened JsNumber

  /** The closed set of protocol kinds. */
  datatype Proto = Kernel | Static | BGP | Direct | Device

  /** One line of `show protocols` summary output. */
  datatype Protocol = Protocol(name: string, proto: Proto, table: string, state: string, since: string, info: string)

  /** The counts of the `Routes:` line; a count the text does not hold is absent. */
  datatype ProtocolRoutes = ProtocolRoutes(imported: Option<nat>, exported: Option<nat>, preferred: Option<nat>)

  /** One route-change statistics line; `---` (not applicable) is absent, distinct from zero. */
  datatype ProtocolRouteChangeStats = ProtocolRouteChangeStats(
    received: Option<JsInt>,
    rejected: Option<JsInt>,
    filtered: Option<JsInt>,
    ignored: Option<JsInt>,
    accepted: Option<JsInt>)

  datatype RouteChangeStats = RouteChangeStats(
    importUpdates: ProtocolRouteChangeStats,
    importWithdraws: ProtocolRouteChangeStats,
    exportUpdates: ProtocolRouteChangeStats,
    exportWithdraws: ProtocolRouteChangeStats)

  datatype ProtocolChannel = ProtocolChannel(
    channel: string,
    state: Option<string>,
    table: Option<string>,
    preference: Option<string>,
    inputFilter: Option<string>,
    outputFilter: Option<string>,
    importLimit: Option<string>,
    action: Option<string>,
    routes: ProtocolRoutes,
    routeChangeStats: RouteChangeStats,
    bgpNextHop: Option<seq<string>>)

  datatype Multiprotocol = Multiprotocol(afAnnounced: seq<string>)

  datatype ExtendedNextHop = ExtendedNextHop(ipv6NextHop: seq<string>)

  datatype BgpCapabilities = BgpCapabilities(
    multiprotocol: Multiprotocol,
    routeRefresh: bool,
    extendedNextHop: ExtendedNextHop,
    extendedMessage: bool,
    gracefulRestart: bool,
    fourOctetASNumbers: bool,
    enhancedRefresh: bool,
    longLivedGracefulRestart: bool)

  /** A `current/max` timer, kept as the two numerals before conversion to a
      floating-point number; `max` is absent when the text has no `/`. */
  datatype BgpTimer = BgpTimer(current: string, max: Option<string>)

  datatype ProtocolBgp = ProtocolBgp(
    state: string,
    neighborAddress: string,
    neighborAS: nat,
    localAS: nat,
    neighborID: string,
    localCapabilities: BgpCapabilities,
    neighborCapabilities: BgpCapabilities,
    session: seq<string>,
    sourceAddress: string,
    holdTimer: BgpTimer,
    keepaliveTimer: BgpTimer,
    sendHoldTimer: BgpTimer)

  datatype ProtocolPassiveBgp = ProtocolPassiveBgp(
    state: string,
    neighborRange: string,
    neighborAS: nat,
    localAS: nat)

  /** The session record of a BGP protocol: an active or a passive session. */
  datatype BgpSession = Active(active: ProtocolBgp) | Passive(passive: ProtocolPassiveBgp)

  /** The detailed record of one protocol; the variant follows its `proto` tag. */
  datatype ProtocolAll =
    | KernelAll(protocol: Protocol, channels: seq<ProtocolChannel>)
    | StaticAll(protocol: Protocol, channels: seq<ProtocolChannel>)
    | BgpAll(protocol: Protocol, channels: seq<ProtocolChannel>, bgp: BgpSession)
    | DirectAll(protocol: Protocol)
    | DeviceAll(protocol: Protocol)
}
