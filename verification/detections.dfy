/** The decoded detection records the handlers read: Rekognition face
    details and scene labels for an image, Comprehend entities and
    sentiment for a text. Enumeration values (`GenderType`, `EmotionName`,
    `EntityType`, `SentimentType`) are the strings the SDK's constant
    classes carry, since JSON decoding accepts any string for them.
    `float` fields are real numbers. Fields the handlers never read are
    left out. */
module Detections {

  datatype BoundingBox = BoundingBox(width: real, height: real)

  datatype AgeRange = AgeRange(low: int, high: int)

  datatype Emotion = Emotion(emotionType: string, confidence: real)

  datatype FaceDetail = FaceDetail(
    boundingBox: BoundingBox,
    confidence: real,
    gender: string,
    ageRange: AgeRange,
    smile: bool,
    sunglasses: bool,
    emotions: seq<Emotion>)

  datatype Parent = Parent(name: string)

  datatype Label = Label(name: string, parents: seq<Parent>)

  /** The image record (`SelfieDetail`). */
  datatype SelfieDetail = SelfieDetail(imageName: string, labels: seq<Label>, facesDetails: seq<FaceDetail>)

  datatype Entity = Entity(entityType: string, text: string)

  /** The text record (`TextDetail`). */
  datatype TextDetail = TextDetail(id: string, entities: seq<Entity>, sentiment: string)

  /** The key the main face is chosen by: bounding-box width times height. */
  function Area(f: FaceDetail): real {
    f.boundingBox.width * f.boundingBox.height
  }

  function Confidence(e: Emotion): real {
    e.confidence
  }
}
