/** Choice of detector, descriptor kind and patch extraction in the
    features-matching demo. The console answers are inputs: `None` stands for
    an empty line (take the default), `Some(n)` for the number the line was
    parsed to. */
module Extraction {

  datatype Option<T> = None | Some(value: T)

  // Detector methods, numbered as in the demo's menu.
  const FeatKLT: int := 0
  const FeatSIFT: int := 3
  const FeatSURF: int := 4

  // Descriptor kinds, numbered as in the demo's menu; -1 is "no descriptor".
  const DescNone: int := -1
  const DescAny: int := 0          // the image patch around the keypoint
  const DescSIFT: int := 1
  const DescSURF: int := 2
  const DescSpinImages: int := 4
  const DescPolarImages: int := 8
  const DescLogPolarImages: int := 16

  /** The settings the demo derives before it detects and matches. */
  datatype Plan = Plan(
    featsType: int,           // the detector
    descToCompute: int,       // the descriptor kind asked of the extractor
    patchSize: nat,           // 0: no patch is stored with each feature
    computeDescriptors: bool, // whether descriptors are extracted after detection
    matchedKind: int          // the kind the matching pass and the display use
  )

  /** True for the two detectors that produce their own descriptors. */
  predicate DescribesItself(featsType: int)
  {
    featsType == FeatSIFT || featsType == FeatSURF
  }

  /** Derives the plan from the two console answers, in the order the demo
      takes its decisions. `defaultPatchSize` is the extractor's own setting,
      kept only when patches are what is matched. */
  method SelectDescriptor(selMethod: Option<int>, descMethod: Option<int>, defaultPatchSize: nat)
    returns (plan: Plan)
    // the detector: KLT by default
    ensures plan.featsType == (if selMethod.None? then FeatKLT else selMethod.value)
    // a SIFT or SURF detector is never asked for a descriptor kind, and fixes it
    ensures plan.featsType == FeatSIFT ==> plan.matchedKind == DescSIFT
    ensures plan.featsType == FeatSURF ==> plan.matchedKind == DescSURF
    ensures DescribesItself(plan.featsType) ==> plan.descToCompute == DescNone
    // any other detector takes the answer, SIFT by default
    ensures !DescribesItself(plan.featsType) ==>
              plan.matchedKind == plan.descToCompute &&
              plan.descToCompute == (if descMethod.None? then DescSIFT else descMethod.value)
    // descriptors are extracted exactly for a real kind other than the patch
    ensures plan.computeDescriptors <==>
              plan.descToCompute != DescNone && plan.descToCompute != DescAny
    // the patch is kept exactly when the patch is what is asked for
    ensures plan.patchSize == (if plan.descToCompute == DescAny then defaultPatchSize else 0)
    // consequences for the matching pass: whenever descriptors were
    // extracted they are what is compared, and a stored patch is only
    // there when patches are what is compared
    ensures plan.computeDescriptors ==> plan.matchedKind == plan.descToCompute != DescAny
    ensures plan.patchSize > 0 ==> plan.matchedKind == DescAny
    ensures plan.matchedKind == DescAny ==> plan.descToCompute == DescAny
  {
    var featsType := if selMethod.None? then FeatKLT else selMethod.value;

    var descToCompute := DescNone;
    if featsType != FeatSIFT && featsType != FeatSURF {
      descToCompute := if descMethod.None? then DescSIFT else descMethod.value;
    }

    var patchSize := defaultPatchSize;
    if descToCompute != DescAny {
      patchSize := 0;
    }

    var compute := descToCompute != DescNone && descToCompute != DescAny;

    var matchedKind := descToCompute;
    if featsType == FeatSIFT {
      matchedKind := DescSIFT;
    } else if featsType == FeatSURF {
      matchedKind := DescSURF;
    }

    plan := Plan(featsType, descToCompute, patchSize, compute, matchedKind);
  }
}
