/** First fit over a sorted table of CPU machines, as the AWS, Azure, GCP and Nebius
    providers choose one. */
module MachineTables {
  import opened Text

  datatype Machine = Machine(cpus: int, memory: int, name: string)

  predicate Fits(m: Machine, cpus: int, memory: real) {
    m.cpus >= cpus && m.memory as real >= memory
  }

  /** The sort key `(vcpus, memory)` in lexicographic order. */
  predicate NotAbove(a: Machine, b: Machine) {
    a.cpus < b.cpus || (a.cpus == b.cpus && a.memory <= b.memory)
  }

  /** The key orders machines totally. */
  lemma KeyOrder(a: Machine, b: Machine, c: Machine)
    ensures NotAbove(a, b) || NotAbove(b, a)
    ensures NotAbove(a, b) && NotAbove(b, a) <==> a.cpus == b.cpus && a.memory == b.memory
    ensures NotAbove(a, b) && NotAbove(b, c) ==> NotAbove(a, c)
    ensures a.cpus < b.cpus ==> NotAbove(a, b)
  {}

  predicate Sorted(table: seq<Machine>) {
    forall i, j :: 0 <= i < j < |table| ==> NotAbove(table[i], table[j])
  }

  /** The last row is at least as large as every row, in both columns. */
  predicate LastDominates(table: seq<Machine>) {
    table != [] &&
    forall i :: 0 <= i < |table| ==>
      table[i].cpus <= table[|table| - 1].cpus && table[i].memory <= table[|table| - 1].memory
  }

  /** `None` is the ValueError. */
  function FirstFit(table: seq<Machine>, cpus: int, memory: real): Option<Machine> {
    if table == [] then None
    else if Fits(table[0], cpus, memory) then Some(table[0])
    else FirstFit(table[1..], cpus, memory)
  }

  lemma {:induction false} FirstFitAt(table: seq<Machine>, cpus: int, memory: real)
    ensures var r := FirstFit(table, cpus, memory);
            if r.Some?
            then exists i :: 0 <= i < |table| && table[i] == r.value && Fits(table[i], cpus, memory) &&
                   forall j :: 0 <= j < i ==> !Fits(table[j], cpus, memory)
            else forall j :: 0 <= j < |table| ==> !Fits(table[j], cpus, memory)
  {
    if table != [] && !Fits(table[0], cpus, memory) {
      FirstFitAt(table[1..], cpus, memory);
      var r := FirstFit(table[1..], cpus, memory);
      assert forall j :: 0 < j < |table| ==> table[j] == table[1..][j - 1];
      if r.Some? {
        var i :| 0 <= i < |table[1..]| && table[1..][i] == r.value && Fits(table[1..][i], cpus, memory) &&
                 forall j :: 0 <= j < i ==> !Fits(table[1..][j], cpus, memory);
        assert table[i + 1] == r.value;
        assert forall j :: 0 <= j < i + 1 ==> !Fits(table[j], cpus, memory);
      }
    }
  }

  /** The machine chosen meets both limits and no fitting machine has a smaller key. */
  lemma {:induction false} FirstFitIsLeast(table: seq<Machine>, cpus: int, memory: real)
    requires Sorted(table)
    ensures FirstFit(table, cpus, memory).Some? <==> exists m :: m in table && Fits(m, cpus, memory)
    ensures var r := FirstFit(table, cpus, memory);
            r.Some? ==>
              && r.value in table && Fits(r.value, cpus, memory)
              && forall m :: m in table && Fits(m, cpus, memory) ==> NotAbove(r.value, m)
  {
    FirstFitAt(table, cpus, memory);
    var r := FirstFit(table, cpus, memory);
    if r.Some? {
      var i :| 0 <= i < |table| && table[i] == r.value && Fits(table[i], cpus, memory) &&
               forall j :: 0 <= j < i ==> !Fits(table[j], cpus, memory);
      forall m | m in table && Fits(m, cpus, memory) ensures NotAbove(r.value, m) {
        var k :| 0 <= k < |table| && table[k] == m;
        assert i <= k;
      }
    } else {
      forall m | m in table ensures !Fits(m, cpus, memory) {
        var k :| 0 <= k < |table| && table[k] == m;
      }
    }
  }

  /** Asking for more never yields a machine with a smaller key, nor an answer where asking
      for less had none. */
  lemma FirstFitMonotone(table: seq<Machine>, cpus: int, memory: real, cpus': int, memory': real)
    requires Sorted(table) && cpus <= cpus' && memory <= memory'
    ensures var less, more := FirstFit(table, cpus, memory), FirstFit(table, cpus', memory');
            more.Some? ==> less.Some? && NotAbove(less.value, more.value)
  {
    FirstFitIsLeast(table, cpus, memory);
    FirstFitIsLeast(table, cpus', memory');
  }

  /** It raises exactly when the request exceeds the last row. */
  lemma {:induction false} RaisesBeyondLast(table: seq<Machine>, cpus: int, memory: real)
    requires Sorted(table) && LastDominates(table)
    ensures FirstFit(table, cpus, memory).None? <==> !Fits(table[|table| - 1], cpus, memory)
  {
    FirstFitIsLeast(table, cpus, memory);
    var last := table[|table| - 1];
    assert last in table;
    forall m | m in table && Fits(m, cpus, memory) ensures Fits(last, cpus, memory) {
      var k :| 0 <= k < |table| && table[k] == m;
    }
  }

  // ------------------------------------------------------------------
  // The shipped tables
  // ------------------------------------------------------------------

  const AWS_SMALL: seq<Machine> := [
    Machine(2, 4, "c5.large"), Machine(2, 8, "m5.large"), Machine(2, 16, "r5.large"),
    Machine(4, 8, "c5.xlarge"), Machine(4, 16, "m5.xlarge"), Machine(4, 32, "r5.xlarge"),
    Machine(8, 16, "c5.2xlarge"), Machine(8, 32, "m5.2xlarge"), Machine(8, 64, "r5.2xlarge"),
    Machine(16, 32, "c5.4xlarge"), Machine(16, 64, "m5.4xlarge"), Machine(16, 128, "r5.4xlarge")]

  const AWS_LARGE: seq<Machine> := [
    Machine(32, 128, "m5.8xlarge"), Machine(32, 256, "r5.8xlarge"), Machine(36, 72, "c5.9xlarge"),
    Machine(48, 96, "c5.12xlarge"), Machine(48, 192, "m5.12xlarge"), Machine(48, 384, "r5.12xlarge"),
    Machine(64, 256, "m5.16xlarge"), Machine(64, 512, "r5.16xlarge"), Machine(72, 144, "c5.18xlarge"),
    Machine(96, 192, "c5.24xlarge"), Machine(96, 384, "m5.24xlarge"), Machine(96, 768, "r5.24xlarge")]

  const AWS: seq<Machine> := AWS_SMALL + AWS_LARGE

  const AZURE_SMALL: seq<Machine> := [
    Machine(2, 4, "Standard_F2s_v2"), Machine(2, 8, "Standard_D2s_v3"), Machine(2, 16, "Standard_E2s_v3"),
    Machine(4, 8, "Standard_F4s_v2"), Machine(4, 16, "Standard_D4s_v3"), Machine(4, 32, "Standard_E4s_v3"),
    Machine(8, 16, "Standard_F8s_v2"), Machine(8, 32, "Standard_D8s_v3"), Machine(8, 64, "Standard_E8s_v3")]

  const AZURE_LARGE: seq<Machine> := [
    Machine(16, 32, "Standard_F16s_v2"), Machine(16, 64, "Standard_D16s_v3"), Machine(16, 128, "Standard_E16s_v3"),
    Machine(32, 64, "Standard_F32s_v2"), Machine(32, 128, "Standard_D32s_v3"), Machine(32, 256, "Standard_E32s_v3"),
    Machine(64, 128, "Standard_F64s_v2"), Machine(64, 256, "Standard_D64s_v3"), Machine(64, 512, "Standard_E64s_v3"),
    Machine(96, 192, "Standard_F96s_v2"), Machine(96, 384, "Standard_D96s_v3"), Machine(96, 672, "Standard_E96s_v3")]

  const AZURE: seq<Machine> := AZURE_SMALL + AZURE_LARGE

  const GCP: seq<Machine> := [
    Machine(2, 8, "e2-standard-2"), Machine(4, 16, "e2-standard-4"), Machine(8, 32, "e2-standard-8"),
    Machine(16, 64, "e2-standard-16"), Machine(32, 128, "n2-standard-32"), Machine(48, 192, "n2-standard-48"),
    Machine(64, 256, "n2-standard-64"), Machine(80, 320, "n2-standard-80"), Machine(96, 384, "n2-standard-96")]

  const NEBIUS: seq<Machine> := [
    Machine(4, 16, "4vcpu-16gb"), Machine(8, 32, "8vcpu-32gb"), Machine(16, 64, "16vcpu-64gb"),
    Machine(32, 128, "32vcpu-128gb"), Machine(48, 192, "48vcpu-192gb"), Machine(64, 256, "64vcpu-256gb"),
    Machine(96, 384, "96vcpu-384gb"), Machine(128, 512, "128vcpu-512gb"), Machine(160, 640, "160vcpu-640gb"),
    Machine(192, 768, "192vcpu-768gb"), Machine(224, 896, "224vcpu-896gb"), Machine(256, 1024, "256vcpu-1024gb")]

  /** Each shipped table raises exactly beyond the limits its error message names. */
  lemma ShippedLimits(cpus: int, memory: real)
    ensures FirstFit(AWS, cpus, memory).None? <==> cpus > 96 || memory > 768.0
    ensures FirstFit(AZURE, cpus, memory).None? <==> cpus > 96 || memory > 672.0
    ensures FirstFit(GCP, cpus, memory).None? <==> cpus > 96 || memory > 384.0
    ensures FirstFit(NEBIUS, cpus, memory).None? <==> cpus > 256 || memory > 1024.0
  {
    AwsShape();
    AzureShape();
    GcpShape();
    NebiusShape();
    RaisesBeyondLast(AWS, cpus, memory);
    RaisesBeyondLast(AZURE, cpus, memory);
    RaisesBeyondLast(GCP, cpus, memory);
    RaisesBeyondLast(NEBIUS, cpus, memory);
  }

  /** Neighbours in order make a sorted table. */
  lemma {:induction false} SortedFromNeighbours(table: seq<Machine>)
    requires forall i :: 0 < i < |table| ==> NotAbove(table[i - 1], table[i])
    ensures Sorted(table)
  {
    if table != [] {
      var init := table[..|table| - 1];
      assert forall i :: 0 <= i < |init| ==> init[i] == table[i];
      SortedFromNeighbours(init);
      forall i, j | 0 <= i < j < |table| ensures NotAbove(table[i], table[j]) {
        if j < |init| {
          assert NotAbove(init[i], init[j]);
        } else if i < j - 1 {
          assert NotAbove(init[i], init[j - 1]);
        }
      }
    }
  }

  /** A sorted table from `first` to a dominating `last`. */
  predicate Shape(table: seq<Machine>, first: Machine, last: Machine) {
    Sorted(table) && LastDominates(table) && table[0] == first && table[|table| - 1] == last
  }

  lemma {:induction false} AwsShape()
    ensures Shape(AWS, Machine(2, 4, "c5.large"), Machine(96, 768, "r5.24xlarge"))
  {
    AwsSmallShape();
    AwsLargeShape();
  }

  lemma AwsSmallShape()
    ensures Shape(AWS_SMALL, Machine(2, 4, "c5.large"), Machine(16, 128, "r5.4xlarge"))
  {
    SortedFromNeighbours(AWS_SMALL);
  }

  lemma AwsLargeShape()
    ensures Shape(AWS_LARGE, Machine(32, 128, "m5.8xlarge"), Machine(96, 768, "r5.24xlarge"))
  {
    SortedFromNeighbours(AWS_LARGE);
  }

  lemma {:induction false} AzureShape()
    ensures Shape(AZURE, Machine(2, 4, "Standard_F2s_v2"), Machine(96, 672, "Standard_E96s_v3"))
  {
    AzureSmallShape();
    AzureLargeShape();
  }

  lemma AzureSmallShape()
    ensures Shape(AZURE_SMALL, Machine(2, 4, "Standard_F2s_v2"), Machine(8, 64, "Standard_E8s_v3"))
  {
    SortedFromNeighbours(AZURE_SMALL);
  }

  lemma AzureLargeShape()
    ensures Shape(AZURE_LARGE, Machine(16, 32, "Standard_F16s_v2"), Machine(96, 672, "Standard_E96s_v3"))
  {
    SortedFromNeighbours(AZURE_LARGE);
  }

  lemma {:induction false} GcpShape()
    ensures Shape(GCP, Machine(2, 8, "e2-standard-2"), Machine(96, 384, "n2-standard-96"))
  {
    SortedFromNeighbours(GCP);
  }

  lemma {:induction false} NebiusShape()
    ensures Shape(NEBIUS, Machine(4, 16, "4vcpu-16gb"), Machine(256, 1024, "256vcpu-1024gb"))
  {
    SortedFromNeighbours(NEBIUS);
  }
}
