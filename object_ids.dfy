/** Document identity shared by the event and booking models. */
module ObjectIds {
  /** A MongoDB `ObjectId`, compared only for equality. */
  type ObjectId = nat
}
