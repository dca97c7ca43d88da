/** Return codes of include/wolftrust/vnet/vnet_errors.h. */
module VnetCodes {
  datatype Code =
    | Ok
    | BadArg
    | NotReady
    | NotOpen
    | InvalMac
    | DupMac
    | NoMac
    | Spoof
    | FrameLen
    | Malformed
    | PoolFull
    | QueueFull
    | Empty
    | StaleCookie
    | NotOwner
    | DoubleRelease
    | DroppedUnknown
    | DroppedPolicy
}
