/**
 * `ComponentWriteError`, reduced to the entity id it carries (the component
 * type name and the detail text only feed its message).
 */
module ComponentErrors {

  datatype ComponentWriteError = ComponentWriteError(entityId: nat)
}
