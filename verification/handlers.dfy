/** The commands installed in the configuration node, by command element. */
module Handlers {

  /** Commands that never touch the recorded configuration. */
  datatype Plain =
    | ShowVersion | Exit | WriteTerminal | WriteFile | WriteMemory | Write | ShowRunningConfig | ShowStartupConfig
    | Ping | PingCount | Reboot | Poweroff | Ssh | SshPort | ShowDate | EndShell
    | ShowIpAddress | ShowIpConfig | ShowIpConfigName | ShowIpRoute
    | PortmapApply | FilterApply | ShowSfirewall
    | ShowWg | ShowWgConf | WgRekey | WgClearkey

  datatype Handler =
    | BridgeDisable | NoBridgeDisable | BridgeAdd | NoBridgeAdd
    | Hostname | NoHostname
    | IpAddress | NoIpAddress | IpAddressDhcp | IpRoute | NoIpRoute | Dns | NoDns
    | Portmap | NoPortmap | Filter | NoFilter
    | WgListenport | WgPeer | WgPeerAllowedIps | WgPeerEndpoint | WgPeerKeepalive | NoWgPeer | WgLink
    | Other(plain: Plain)
}
