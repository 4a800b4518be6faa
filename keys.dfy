/** The property names and literals the configuration class takes from Alluxio's
    Constants class. Only their being pairwise distinct matters to the proofs. */
module Keys {
  const MasterHostname: string := "alluxio.master.hostname"
  const MasterRpcPort: string := "alluxio.master.port"
  const MasterAddress: string := "alluxio.master.address"
  const ZookeeperEnabled: string := "alluxio.zookeeper.enabled"
  const WorkerNettyChannel: string := "alluxio.worker.network.netty.channel"
  const UserNettyChannel: string := "alluxio.user.network.netty.channel"
  const UserFileBufferBytes: string := "alluxio.user.file.buffer.bytes"
  const WorkersPerHostMax: string := "alluxio.integration.yarn.workers.per.host.max"
  const WorkerDataPort: string := "alluxio.worker.data.port"
  const WorkerRpcPort: string := "alluxio.worker.port"
  const WorkerWebPort: string := "alluxio.worker.web.port"

  /** The connection schemes of the master address, without and with ZooKeeper. */
  const Header: string := "alluxio://"
  const HeaderFt: string := "alluxio-ft://"
}
