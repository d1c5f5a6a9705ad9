/**
 * The image-generation server actions: `clamp`, the validation and
 * normalisation of a generation request, the credit rule that decides
 * whether a user may generate, the ordered steps of `generateImageV1`, and
 * the guard of `enhancePrompt`.
 *
 * The auth provider (`currentUser`, `has({ plan: "pro" })`), the inference
 * and language-model clients and `Math.random()` are inputs of the model;
 * the database is the `Store` class below.
 */
module ImageGeneration {
  import opened Wrappers
  import opened JsStrings

  const MinSide := 64
  const MaxSide := 2048
  const MinSteps := 1
  const MaxSteps := 100
  /** Random seeds are drawn from `[0, SeedRange)`. */
  const SeedRange := 1000000
  const ModelName := "black-forest-labs/flux-schnell"
  const ForbiddenCode := 403
  const NoCreditsMessage := "You have no free Credits. Upgrade Plan To get Unlimited Image generation"

  // ---------------------------------------------------------------- clamp

  /** `Math.max(min, Math.min(max, value))` on integers. */
  function Clamp(value: int, min: int, max: int): (r: int)
    ensures min <= max ==> min <= r <= max
    ensures min <= value <= max ==> r == value
    ensures min <= max && value < min ==> r == min
    ensures min <= max && max < value ==> r == max
    ensures max < min ==> r == min
  {
    var upper := if max < value then max else value;
    if min < upper then upper else min
  }

  /** Clamping twice to the same range is the same as clamping once. */
  lemma ClampIdempotent(value: int, min: int, max: int)
    ensures Clamp(Clamp(value, min, max), min, max) == Clamp(value, min, max)
  {
  }

  // ----------------------------------------------------------- validation

  /**
   * The prompt guard shared by `generateImageV1` and `enhancePrompt`:
   * a string (`None` models a value that is not one) that is neither empty
   * nor empty once trimmed.
   */
  predicate IsValidPrompt(prompt: Option<string>) {
    prompt.Some? && prompt.value != "" && |Trim(prompt.value)| != 0
  }

  /** A prompt is rejected exactly when it is missing or made only of white space. */
  lemma ValidPromptIff(prompt: Option<string>)
    ensures !IsValidPrompt(prompt) <==>
              prompt.None? || forall i :: 0 <= i < |prompt.value| ==> IsWhiteSpace(prompt.value[i])
  {
    if prompt.Some? {
      TrimEmptyIff(prompt.value);
    }
  }

  /** The extensions the inference service is asked for. */
  predicate IsValidExtension(ext: string) {
    ext in ["png", "jpg"]
  }

  /** The extension sent: `png` and `jpg` are kept, anything else falls back to `png`. */
  function NormaliseExtension(ext: string): (r: string)
    ensures IsValidExtension(r)
    ensures IsValidExtension(ext) ==> r == ext
    ensures !IsValidExtension(ext) ==> r == "png"
  {
    if ext in ["png", "jpg"] then ext else "png"
  }

  /**
   * The seed sent: a non-negative seed as given, a negative one replaced by
   * `Math.floor(Math.random() * 1000000)`, whose value is `randomDraw`.
   */
  function SafeSeed(seed: int, randomDraw: int): (r: int)
    requires 0 <= randomDraw < SeedRange
    ensures 0 <= r
    ensures 0 <= seed ==> r == seed
    ensures seed < 0 ==> r == randomDraw && r < SeedRange
  {
    if seed < 0 then randomDraw else seed
  }

  // ------------------------------------------------------------ requests

  /** The arguments of the image-generation call. */
  datatype InferenceRequest = InferenceRequest(
    model: string,
    responseFormat: string,
    responseExtension: string,
    width: int,
    height: int,
    numInferenceSteps: int,
    negativePrompt: string,
    seed: int,
    prompt: string)

  /** A stored image row. */
  datatype ImageRecord = ImageRecord(
    clerkId: string,
    fileFormat: string,
    imageUrl: string,
    width: int,
    height: int,
    prompt: string,
    negativePrompt: string,
    seed: int,
    inferenceSteps: int)

  /** What the inference client gives back: it throws, or answers with the `url` of its first image, if any. */
  datatype InferenceReply = CallFailed | Answered(firstUrl: Option<string>)

  /** What `generateImageV1` returns: `null`, the 403 object, or the stored row. */
  datatype GenerationResult = NoResult | Forbidden(code: int, message: string) | Created(image: ImageRecord)

  /** `response?.data?.[0]?.url` is truthy. */
  predicate HasImageUrl(reply: InferenceReply) {
    reply.Answered? && reply.firstUrl.Some? && reply.firstUrl.value != ""
  }

  /** The call `generateImageV1` makes for a validated prompt. */
  function InferenceRequestFor(prompt: string, negativePrompt: string, width: int, height: int,
                               seed: int, responseExt: string, numInferenceSteps: int,
                               randomDraw: int): (r: InferenceRequest)
    requires 0 <= randomDraw < SeedRange
    ensures r.model == ModelName && r.responseFormat == "url"
    ensures IsValidExtension(r.responseExtension)
    ensures IsValidExtension(responseExt) ==> r.responseExtension == responseExt
    ensures MinSide <= r.width <= MaxSide && MinSide <= r.height <= MaxSide
    ensures MinSteps <= r.numInferenceSteps <= MaxSteps
    ensures MinSide <= width <= MaxSide ==> r.width == width
    ensures MinSide <= height <= MaxSide ==> r.height == height
    ensures MinSteps <= numInferenceSteps <= MaxSteps ==> r.numInferenceSteps == numInferenceSteps
    ensures !IsValidExtension(responseExt) ==> r.responseExtension == "png"
    ensures width < MinSide ==> r.width == MinSide
    ensures MaxSide < width ==> r.width == MaxSide
    ensures height < MinSide ==> r.height == MinSide
    ensures MaxSide < height ==> r.height == MaxSide
    ensures numInferenceSteps < MinSteps ==> r.numInferenceSteps == MinSteps
    ensures MaxSteps < numInferenceSteps ==> r.numInferenceSteps == MaxSteps
    ensures 0 <= r.seed && (0 <= seed ==> r.seed == seed)
    ensures seed < 0 ==> r.seed == randomDraw
    ensures r.negativePrompt == negativePrompt
    ensures r.prompt == Trim(prompt)
  {
    InferenceRequest(ModelName, "url", NormaliseExtension(responseExt),
                     Clamp(width, MinSide, MaxSide), Clamp(height, MinSide, MaxSide),
                     Clamp(numInferenceSteps, MinSteps, MaxSteps),
                     negativePrompt, SafeSeed(seed, randomDraw), Trim(prompt))
  }

  /**
   * The row stored after a successful call: format and geometry
   * normalised as they were sent, but the caller's prompt, seed and step
   * count kept as given.
   */
  function RecordFor(clerkId: string, imageUrl: string, prompt: string, negativePrompt: string,
                     width: int, height: int, seed: int, responseExt: string,
                     numInferenceSteps: int): (r: ImageRecord)
    ensures r.clerkId == clerkId && r.imageUrl == imageUrl
    ensures IsValidExtension(r.fileFormat)
    ensures IsValidExtension(responseExt) ==> r.fileFormat == responseExt
    ensures MinSide <= r.width <= MaxSide && MinSide <= r.height <= MaxSide
    ensures MinSide <= width <= MaxSide ==> r.width == width
    ensures MinSide <= height <= MaxSide ==> r.height == height
    ensures !IsValidExtension(responseExt) ==> r.fileFormat == "png"
    ensures width < MinSide ==> r.width == MinSide
    ensures MaxSide < width ==> r.width == MaxSide
    ensures height < MinSide ==> r.height == MinSide
    ensures MaxSide < height ==> r.height == MaxSide
    ensures r.prompt == prompt && r.negativePrompt == negativePrompt
    ensures r.seed == seed && r.inferenceSteps == numInferenceSteps
  {
    ImageRecord(clerkId, NormaliseExtension(responseExt), imageUrl,
                Clamp(width, MinSide, MaxSide), Clamp(height, MinSide, MaxSide),
                prompt, negativePrompt, seed, numInferenceSteps)
  }

  /**
   * The stored row agrees with the call on format and geometry but keeps the
   * caller's seed, step count and untrimmed prompt; these differ from what
   * was sent exactly when normalisation changed them.
   */
  lemma RecordKeepsRawInputs(clerkId: string, imageUrl: string, prompt: string, negativePrompt: string,
                             width: int, height: int, seed: int, responseExt: string,
                             numInferenceSteps: int, randomDraw: int)
    requires 0 <= randomDraw < SeedRange
    ensures var sent := InferenceRequestFor(prompt, negativePrompt, width, height, seed, responseExt,
                                            numInferenceSteps, randomDraw);
            var rec := RecordFor(clerkId, imageUrl, prompt, negativePrompt, width, height, seed,
                                 responseExt, numInferenceSteps);
            && rec.fileFormat == sent.responseExtension
            && rec.width == sent.width && rec.height == sent.height
            && (rec.seed == sent.seed <==> 0 <= seed)
            && (rec.inferenceSteps == sent.numInferenceSteps <==> MinSteps <= numInferenceSteps <= MaxSteps)
            && (rec.prompt == sent.prompt <==> prompt == Trim(prompt))
  {
  }

  /** A negative seed and an out-of-range step count are sent normalised but stored as given. */
  lemma RawSeedAndStepsStored(clerkId: string, imageUrl: string, prompt: string, randomDraw: int)
    requires 0 <= randomDraw < SeedRange
    ensures var sent := InferenceRequestFor(prompt, "", 4000, 10, -1, "webp", 500, randomDraw);
            var rec := RecordFor(clerkId, imageUrl, prompt, "", 4000, 10, -1, "webp", 500);
            && sent.width == 2048 && sent.height == 64 && sent.numInferenceSteps == 100
            && sent.responseExtension == "png" && sent.seed == randomDraw
            && rec.width == 2048 && rec.height == 64 && rec.fileFormat == "png"
            && rec.seed == -1 && rec.inferenceSteps == 500
  {
    assert !IsValidExtension("webp") by {
      assert "webp" != "png" && "webp" != "jpg";
    }
  }

  // --------------------------------------------------------------- credits

  /** The outcome of one eligibility check: the answer and the credits after it. */
  datatype Eligibility = Eligibility(eligible: bool, credits: map<string, int>)

  /**
   * `checkImageGenerationEligibility`: a user without a record is refused;
   * a user with credits left spends one; otherwise the pro plan decides.
   */
  function CheckEligibility(credits: map<string, int>, userId: string, hasProPlan: bool): (r: Eligibility)
    ensures r.eligible <==> userId in credits && (credits[userId] > 0 || hasProPlan)
    ensures r.credits.Keys == credits.Keys
    ensures forall u :: u in credits && u != userId ==> r.credits[u] == credits[u]
    ensures userId in credits ==>
              r.credits[userId] == if credits[userId] > 0 then credits[userId] - 1 else credits[userId]
    ensures r.credits != credits <==> userId in credits && credits[userId] > 0
  {
    if userId !in credits then Eligibility(false, credits)
    else if credits[userId] > 0 then Eligibility(true, credits[userId := credits[userId] - 1])
    else Eligibility(hasProPlan, credits)
  }

  /** No user's balance is negative. */
  predicate NonNegative(credits: map<string, int>) {
    forall u :: u in credits ==> credits[u] >= 0
  }

  /** Checks never drive a balance below zero. */
  lemma CheckKeepsNonNegative(credits: map<string, int>, userId: string, hasProPlan: bool)
    requires NonNegative(credits)
    ensures NonNegative(CheckEligibility(credits, userId, hasProPlan).credits)
  {
    var r := CheckEligibility(credits, userId, hasProPlan);
    forall u | u in r.credits
      ensures r.credits[u] >= 0
    {
      assert u in credits;
    }
  }

  /** The number of successful checks among `k` consecutive ones by the same user. */
  function GrantedAmong(credits: map<string, int>, userId: string, hasProPlan: bool, k: nat): (r: nat)
    ensures r <= k
  {
    if k == 0 then 0
    else
      var first := CheckEligibility(credits, userId, hasProPlan);
      (if first.eligible then 1 else 0) + GrantedAmong(first.credits, userId, hasProPlan, k - 1)
  }

  /**
   * Without a pro plan, a user holding `n >= 0` credits is granted exactly
   * `min(k, n)` of `k` consecutive generations.
   */
  lemma {:induction false} FreeGenerationsAreCredits(credits: map<string, int>, userId: string, k: nat)
    requires userId in credits && credits[userId] >= 0
    ensures GrantedAmong(credits, userId, false, k) == if k < credits[userId] then k else credits[userId]
  {
    if k > 0 {
      var first := CheckEligibility(credits, userId, false);
      FreeGenerationsAreCredits(first.credits, userId, k - 1);
    }
  }

  /** The database: credit balances by Clerk id and the stored images. */
  class Store {
    var credits: map<string, int>
    var images: seq<ImageRecord>

    constructor(credits: map<string, int>)
      ensures this.credits == credits && images == []
    {
      this.credits := credits;
      images := [];
    }

    /** Looks the user up and spends a credit when one is left. */
    method CheckImageGenerationEligibility(userId: string, hasProPlan: bool) returns (eligible: bool)
      modifies this
      ensures var e := CheckEligibility(old(credits), userId, hasProPlan);
              eligible == e.eligible && credits == e.credits
      ensures images == old(images)
    {
      if userId !in credits {
        return false;
      }
      if credits[userId] > 0 {
        credits := credits[userId := credits[userId] - 1];
        return true;
      }
      return hasProPlan;
    }

    /**
     * `generateImageV1`, step by step: the current user, the eligibility
     * check (which spends a credit), prompt validation, normalisation, the
     * inference call answered by `reply`, and the stored row. `sent` is the
     * call made, if any.
     */
    method GenerateImageV1(user: Option<string>, hasProPlan: bool, prompt: Option<string>,
                           negativePrompt: string, width: int, height: int, seed: int,
                           responseExt: string, numInferenceSteps: int,
                           randomDraw: int, reply: InferenceReply)
        returns (result: GenerationResult, sent: Option<InferenceRequest>)
      requires 0 <= randomDraw < SeedRange
      modifies this
      ensures user.None? ==> result == NoResult && sent == None
                             && credits == old(credits) && images == old(images)
      ensures user.Some? ==> credits == CheckEligibility(old(credits), user.value, hasProPlan).credits
      ensures user.Some? && !CheckEligibility(old(credits), user.value, hasProPlan).eligible ==>
                result == Forbidden(ForbiddenCode, NoCreditsMessage) && sent == None && images == old(images)
      ensures user.Some? && CheckEligibility(old(credits), user.value, hasProPlan).eligible &&
              !IsValidPrompt(prompt) ==>
                result == NoResult && sent == None && images == old(images)
      ensures user.Some? && CheckEligibility(old(credits), user.value, hasProPlan).eligible &&
              IsValidPrompt(prompt) ==>
                var req := InferenceRequestFor(prompt.value, negativePrompt, width, height, seed,
                                               responseExt, numInferenceSteps, randomDraw);
                sent == Some(req) &&
                if HasImageUrl(reply) then
                  var rec := RecordFor(user.value, reply.firstUrl.value, prompt.value, negativePrompt,
                                       width, height, seed, responseExt, numInferenceSteps);
                  result == Created(rec) && images == old(images) + [rec]
                else
                  result == NoResult && images == old(images)
    {
      sent := None;
      if user.None? {
        return NoResult, None;
      }
      var eligible := CheckImageGenerationEligibility(user.value, hasProPlan);
      if !eligible {
        return Forbidden(ForbiddenCode, NoCreditsMessage), None;
      }
      if !IsValidPrompt(prompt) {
        // The thrown error is caught and turned into `null`.
        return NoResult, None;
      }
      var ext := responseExt;
      if !IsValidExtension(ext) {
        ext := "png";
      }
      var safeWidth := Clamp(width, MinSide, MaxSide);
      var safeHeight := Clamp(height, MinSide, MaxSide);
      var safeSteps := Clamp(numInferenceSteps, MinSteps, MaxSteps);
      var safeSeed := if seed < 0 then randomDraw else seed;
      var req := InferenceRequest(ModelName, "url", ext, safeWidth, safeHeight, safeSteps,
                                  negativePrompt, safeSeed, Trim(prompt.value));
      sent := Some(req);
      if !HasImageUrl(reply) {
        return NoResult, sent;
      }
      var rec := ImageRecord(user.value, ext, reply.firstUrl.value, safeWidth, safeHeight,
                             prompt.value, negativePrompt, seed, numInferenceSteps);
      images := images + [rec];
      result := Created(rec);
    }
  }

  // -------------------------------------------------------- enhancePrompt

  /** What the language-model client would give back if called: it throws, or answers with `result.text`, possibly undefined. */
  datatype ModelReply = ModelFailed | Text(text: Option<string>)

  /** The outcome of `enhancePrompt`: whether the model was called, and the returned prompt (`None` for `null`). */
  datatype Enhancement = Enhancement(called: bool, enhanced: Option<string>)

  /**
   * `enhancePrompt`: a missing or blank prompt gives `null` without calling
   * the model; otherwise the model is called, and the result is its trimmed
   * answer, or `null` when the answer is missing or blank or the call fails.
   */
  function EnhancePrompt(prompt: Option<string>, reply: ModelReply): (r: Enhancement)
    ensures r.called <==> IsValidPrompt(prompt)
    ensures !r.called ==> r.enhanced == None
    ensures r.enhanced.Some? <==> r.called && reply.Text? && reply.text.Some? && Trim(reply.text.value) != ""
    ensures r.enhanced.Some? ==> r.enhanced.value == Trim(reply.text.value)
  {
    if !IsValidPrompt(prompt) then Enhancement(false, None)
    else
      match reply
      case ModelFailed => Enhancement(true, None)
      case Text(text) =>
        Enhancement(true, if text.Some? && Trim(text.value) != "" then Some(Trim(text.value)) else None)
  }

  /** An enhanced prompt is non-empty, already trimmed, and itself a valid prompt. */
  lemma EnhancedPromptIsTrimmedAndValid(prompt: Option<string>, reply: ModelReply)
    requires EnhancePrompt(prompt, reply).enhanced.Some?
    ensures var e := EnhancePrompt(prompt, reply).enhanced.value;
            e != "" && Trim(e) == e && IsValidPrompt(Some(e))
  {
    TrimIdempotent(reply.text.value);
  }

  /** A white-space-only prompt is never sent to the model, whatever it would answer. */
  lemma BlankPromptNotEnhanced(prompt: string, reply: ModelReply)
    requires forall i :: 0 <= i < |prompt| ==> IsWhiteSpace(prompt[i])
    ensures EnhancePrompt(Some(prompt), reply) == Enhancement(false, None)
  {
    ValidPromptIff(Some(prompt));
  }
}
