/** The objects a topology is published as. */
module Resources {
  import opened Options

  const LABEL_RACK := "gpu-sim.io/rack"
  const LABEL_FAULT_DOMAIN := "gpu-sim.io/fault-domain"
  const LABEL_NVLINK_DOMAIN := "gpu-sim.io/nvlink-domain"
  const LABEL_NODE_POOL := "run.ai/simulated-gpu-node-pool"
  const LABEL_KWOK_TYPE := "type"
  const LABEL_MANAGED_BY := "app.kubernetes.io/managed-by"
  const MANAGED_BY := "gpu-sim"
  const LABEL_TOPOLOGY := "gpu-sim.io/topology"
  const LABEL_HOSTNAME := "kubernetes.io/hostname"
  const LABEL_OS := "kubernetes.io/os"
  const LABEL_ARCH := "kubernetes.io/arch"

  const ATTR_TYPE := "type"
  const ATTR_LEGACY_TYPE := "gpu.nvidia.com/type"
  const ATTR_PROFILE := "profile"
  const ATTR_BUS_ID := "pciBusID"
  const ATTR_NVLINK_DOMAIN := "gpu-sim.io/nvlinkDomain"
  const ATTR_FAULT_DOMAIN := "gpu-sim.io/faultDomain"

  const MAX_DEVICES_PER_SLICE: nat := 64

  datatype Taint = Taint(key: string, effect: string)

  datatype CounterConsumption = CounterConsumption(counterSet: string, counters: map<string, nat>)

  datatype Device = Device(
    name: string,
    attributes: map<string, string>,
    consumes: seq<CounterConsumption>,
    taints: seq<Taint>)

  datatype CounterSet = CounterSet(name: string, counters: map<string, nat>)

  datatype ResourceSlice = ResourceSlice(
    name: string,
    labels: map<string, string>,
    nodeName: Option<string>,
    sliceCount: nat,
    sharedCounters: seq<CounterSet>,
    devices: seq<Device>)

  predicate ManagedLabels(labels: map<string, string>) {
    LABEL_MANAGED_BY in labels && labels[LABEL_MANAGED_BY] == MANAGED_BY
  }

  /** The mark of what gpu-sim may change or delete. */
  lemma {:induction false} ManagedIs(labels: map<string, string>)
    ensures ManagedLabels(labels) <==> ("app.kubernetes.io/managed-by", "gpu-sim") in labels.Items
  {
  }
}
