/**
 The two network-name tables: the chain objects handed to the viem client,
 and the network identifiers of the Chainbase analytics service. The first
 throws on an unknown name, the second returns null, and they disagree on
 "mainnet".
 */
module Networks {
  import opened Wrappers

  /** The chain definitions the viem client can be built for. */
  datatype ViemChain = Mainnet | Base | Optimism | Arbitrum

  /** The network name each chain is selected by. */
  function ChainName(c: ViemChain): string {
    match c
    case Mainnet => "mainnet"
    case Base => "base"
    case Optimism => "optimism"
    case Arbitrum => "arbitrum"
  }

  const ViemNetworkNames: set<string> := {"mainnet", "base", "optimism", "arbitrum"}
  const ChainbaseNetworkNames: set<string> := {"base", "optimism", "arbitrum"}

  /** The message of the error thrown for an unsupported name. */
  function UnsupportedNetwork(network: string): string {
    "Unsupported network: " + network
  }

  /**
   The viem chain for a network name; any other name throws. A chain is
   returned exactly for the four supported names, and it is the chain
   selected by that very name.
   */
  function GetViemNetwork(network: string): (r: Result<ViemChain, string>)
    ensures r.Success? <==> network in ViemNetworkNames
    ensures r.Success? ==> ChainName(r.value) == network
    ensures r.Failure? ==> r.error == UnsupportedNetwork(network)
  {
    match network
    case "mainnet" => Success(Mainnet)
    case "base" => Success(Base)
    case "optimism" => Success(Optimism)
    case "arbitrum" => Success(Arbitrum)
    case _ => Failure(UnsupportedNetwork(network))
  }

  /** Every chain is reached from its own name, so no two names share a chain. */
  lemma ViemNetworkRoundTrip(c: ViemChain, other: string)
    ensures GetViemNetwork(ChainName(c)) == Success(c)
    ensures other != ChainName(c) ==> GetViemNetwork(other) != Success(c)
  {
  }

  /**
   The Chainbase network identifier for a name, or null: the three
   supported names map to themselves followed by "-mainnet".
   */
  function GetNetworkId(network: string): (r: Option<string>)
    ensures r.Some? <==> network in ChainbaseNetworkNames
    ensures r.Some? ==> r.value == network + "-mainnet"
  {
    match network
    case "base" => Some("base-mainnet")
    case "optimism" => Some("optimism-mainnet")
    case "arbitrum" => Some("arbitrum-mainnet")
    case _ => None
  }

  /** The Chainbase table covers exactly the viem table without "mainnet". */
  lemma NetworkTablesDisagreeOnMainnet(network: string)
    ensures GetNetworkId(network).Some? <==> GetViemNetwork(network).Success? && network != "mainnet"
    ensures GetViemNetwork("mainnet") == Success(Mainnet) && GetNetworkId("mainnet") == None
  {
  }
}
