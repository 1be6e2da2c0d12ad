/**
 * The corosync constants the validators depend on. Their values live outside
 * the validators and are not part of this model, so they are a parameter.
 */
module CorosyncConstants {

  datatype Constants = Constants(
    transportsKnet: seq<string>,
    transportsUdp: seq<string>,
    transportsAll: seq<string>,
    linksKnetMin: nat,
    linksKnetMax: nat,
    linksUdpMin: nat,
    linksUdpMax: nat,
    quorumOptions: seq<string>,
    quorumOptionsIncompatibleWithQdevice: seq<string>,
    /** Whether a heuristics `exec_NAME` option name matches the allowed-name expression. */
    isHeuristicsExecName: string -> bool)
}
